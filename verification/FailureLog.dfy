/**
 The runner's failure log: a file of newline-terminated records that is trimmed
 at its front to stay within a size limit, with over-long records truncated
 before they are appended. Encoding and decoding a record are parameters.
 */
module FailureLog {
  import opened Options
  import opened Bytes

  /** A record as the file holds it: one newline, at its end. */
  ghost predicate IsLine(r: bytes) {
    r != [] && r[|r| - 1] == NEWLINE && forall i :: 0 <= i < |r| - 1 ==> r[i] != NEWLINE
  }

  ghost predicate AllLines(rs: seq<bytes>) {
    forall i :: 0 <= i < |rs| ==> IsLine(rs[i])
  }

  // ---------- trimming ----------

  /** Just past the first newline at or after `from`, or the end of the file. */
  function NextLine(s: bytes, from: nat): (r: nat)
    requires from <= |s|
    ensures from <= r <= |s| && (from < |s| ==> from < r)
    decreases |s| - from
  {
    if from == |s| then |s| else if s[from] == NEWLINE then from + 1 else NextLine(s, from + 1)
  }

  method FindKeepOffset(file: bytes, trimBytes: nat) returns (offset: nat)
    requires trimBytes <= |file|
    ensures offset == if trimBytes == 0 then 0 else NextLine(file, trimBytes)
  {
    if trimBytes <= 0 {
      return 0;
    }
    var i := trimBytes;
    while i < |file| && file[i] != NEWLINE
      invariant trimBytes <= i <= |file|
      invariant NextLine(file, trimBytes) == NextLine(file, i)
    {
      i := i + 1;
    }
    offset := if i < |file| then i + 1 else |file|;
  }

  /** How many leading records a trim of `n` bytes drops: it always completes the record it lands in. */
  function DropCount(rs: seq<bytes>, n: nat): (k: nat)
    ensures k <= |rs|
  {
    if rs == [] then 0 else if n < |rs[0]| then 1 else 1 + DropCount(rs[1..], n - |rs[0]|)
  }

  lemma {:induction false} SkipPart(s: bytes, t: bytes, from: nat)
    requires from <= |t|
    ensures NextLine(s + t, |s| + from) == |s| + NextLine(t, from)
    decreases |t| - from
  {
    if from < |t| {
      assert (s + t)[|s| + from] == t[from];
      SkipPart(s, t, from + 1);
    }
  }

  lemma {:induction false} WithinLine(r: bytes, t: bytes, from: nat)
    requires IsLine(r) && from < |r|
    ensures NextLine(r + t, from) == |r|
    decreases |r| - from
  {
    if from < |r| - 1 {
      WithinLine(r, t, from + 1);
    }
  }

  lemma LaterOffset(r: bytes, rest: bytes, n: nat)
    requires |r| <= n <= |r| + |rest|
    ensures NextLine(r + rest, n) == |r| + NextLine(rest, n - |r|)
    ensures (r + rest)[NextLine(r + rest, n)..] == rest[NextLine(rest, n - |r|)..]
  {
    SkipPart(r, rest, n - |r|);
  }

  lemma FirstOffset(r: bytes, rest: bytes, n: nat)
    requires IsLine(r) && n < |r|
    ensures NextLine(r + rest, n) == |r| && (r + rest)[|r|..] == rest
  {
    WithinLine(r, rest, n);
  }

  /** In a file of records the offset found is a record boundary. */
  lemma {:induction false} OffsetIsBoundary(rs: seq<bytes>, n: nat)
    requires AllLines(rs) && n <= |Concat(rs)|
    ensures NextLine(Concat(rs), n) == |Concat(rs)| - |Concat(rs[DropCount(rs, n)..])|
    ensures Concat(rs)[NextLine(Concat(rs), n)..] == Concat(rs[DropCount(rs, n)..])
    decreases |rs|
  {
    if rs != [] {
      var r, rest := rs[0], rs[1..];
      assert IsLine(r);
      if n < |r| {
        FirstOffset(r, Concat(rest), n);
      } else {
        LaterOffset(r, Concat(rest), n);
        OffsetIsBoundary(rest, n - |r|);
        assert rs[1 + DropCount(rest, n - |r|)..] == rest[DropCount(rest, n - |r|)..];
      }
    }
  }

  /** What is left is shorter than before the cut by more than `n`, and no longer suffix of records would be. */
  lemma {:induction false} DropIsLeast(rs: seq<bytes>, n: nat)
    requires AllLines(rs) && n < |Concat(rs)|
    ensures var k := DropCount(rs, n);
            && 0 < k && |Concat(rs[k..])| < |Concat(rs)| - n
            && forall j :: 0 <= j < k ==> |Concat(rs[j..])| >= |Concat(rs)| - n
    decreases |rs|
  {
    var r, rest := rs[0], rs[1..];
    assert IsLine(r);
    assert rs[0..] == rs;
    if n >= |r| {
      DropIsLeast(rest, n - |r|);
      var k := DropCount(rest, n - |r|);
      assert DropCount(rs, n) == 1 + k && |Concat(rs)| == |r| + |Concat(rest)|;
      assert rs[1 + k..] == rest[k..];
      forall j | 0 < j < 1 + k ensures |Concat(rs[j..])| >= |Concat(rs)| - n {
        assert rs[j..] == rest[j - 1..];
      }
    }
  }

  // ---------- appending ----------

  /** The records after one more is appended and the file is trimmed to the limit. */
  function Append(limit: nat, rs: seq<bytes>, r: bytes): seq<bytes> {
    var all := rs + [r];
    if |Concat(all)| <= limit then all else all[DropCount(all, |Concat(all)| - limit)..]
  }

  function AppendAll(limit: nat, rs: seq<bytes>, more: seq<bytes>): seq<bytes> {
    if more == [] then rs else Append(limit, AppendAll(limit, rs, more[..|more| - 1]), more[|more| - 1])
  }

  ghost predicate IsSuffix(s: seq<bytes>, whole: seq<bytes>) {
    |s| <= |whole| && whole[|whole| - |s|..] == s
  }

  /** Appending keeps a suffix of the history within the limit, and all of it exactly while it fits. */
  lemma AppendKeeps(limit: nat, rs: seq<bytes>, r: bytes)
    requires limit > 0 && AllLines(rs) && IsLine(r)
    ensures var after := Append(limit, rs, r);
            && AllLines(after) && |Concat(after)| <= limit && IsSuffix(after, rs + [r])
            && (|Concat(rs)| + |r| <= limit <==> after == rs + [r])
  {
    var all := rs + [r];
    assert AllLines(all);
    ConcatOne(rs, r);
    if |Concat(all)| > limit {
      TrimmedSuffix(all, limit);
    } else {
      SuffixOf(all, 0);
      assert all[0..] == all;
    }
  }

  lemma TrimmedSuffix(all: seq<bytes>, limit: nat)
    requires AllLines(all) && 0 < limit < |Concat(all)|
    ensures var after := all[DropCount(all, |Concat(all)| - limit)..];
            AllLines(after) && |Concat(after)| <= limit && IsSuffix(after, all) && |after| < |all|
  {
    var n := |Concat(all)| - limit;
    DropIsLeast(all, n);
    SuffixOf(all, DropCount(all, n));
  }

  lemma SuffixOf(all: seq<bytes>, k: nat)
    requires AllLines(all) && k <= |all|
    ensures AllLines(all[k..]) && IsSuffix(all[k..], all)
  {
  }

  /** The newest record survives exactly when it is shorter than the limit, or fills an empty log to the byte. */
  lemma NewestSurvives(limit: nat, rs: seq<bytes>, r: bytes)
    requires limit > 0 && AllLines(rs) && IsLine(r) && |r| <= limit
    ensures var after := Append(limit, rs, r);
            && (after != [] <==> |r| < limit || rs == [])
            && (after != [] ==> after[|after| - 1] == r)
  {
    var all := rs + [r];
    var n := |Concat(all)| - limit;
    ConcatOne(rs, r);
    assert all[|rs|..] == [r] && Concat([r]) == r;
    if n > 0 {
      DropIsLeast(all, n);
      var k := DropCount(all, n);
      if k <= |rs| {
        SuffixShrinks(all, k, |rs|);
      }
    } else if rs != [] {
      assert IsLine(rs[0]);
    }
  }

  lemma TrimCut(all: seq<bytes>, limit: nat, j: nat)
    requires AllLines(all) && 0 < limit < |Concat(all)| && j <= |all|
    ensures |Concat(all[j..])| < limit <==> j >= DropCount(all, |Concat(all)| - limit)
  {
    var n := |Concat(all)| - limit;
    DropIsLeast(all, n);
    if j >= DropCount(all, n) { SuffixShrinks(all, DropCount(all, n), j); }
  }

  /** When it trims, the longest run of newest records that is strictly shorter than the limit stays. */
  lemma TrimKeepsLongestSuffix(limit: nat, rs: seq<bytes>, r: bytes, j: nat)
    requires limit > 0 && AllLines(rs) && IsLine(r) && |Concat(rs + [r])| > limit && j <= |rs| + 1
    ensures |Concat((rs + [r])[j..])| < limit <==> j >= |rs| + 1 - |Append(limit, rs, r)|
  {
    LinesMore(rs, r);
    TrimCut(rs + [r], limit, j);
    TrimmedLength(limit, rs, r);
  }

  lemma LinesMore(rs: seq<bytes>, r: bytes)
    requires AllLines(rs) && IsLine(r)
    ensures AllLines(rs + [r])
  {
  }

  lemma TrimmedLength(limit: nat, rs: seq<bytes>, r: bytes)
    requires |Concat(rs + [r])| > limit
    ensures |Append(limit, rs, r)| == |rs| + 1 - DropCount(rs + [r], |Concat(rs + [r])| - limit)
  {
  }

  lemma {:induction false} SuffixShrinks(rs: seq<bytes>, k: nat, j: nat)
    requires k <= j <= |rs|
    ensures |Concat(rs[j..])| <= |Concat(rs[k..])|
    decreases j - k
  {
    if k < j {
      SuffixShrinks(rs, k + 1, j);
      assert rs[k..][1..] == rs[k + 1..];
    }
  }

  /** After any history the log is a line-aligned suffix of it, never over the limit. */
  lemma {:induction false} LogIsSuffixOfHistory(limit: nat, history: seq<bytes>)
    requires limit > 0 && AllLines(history)
    ensures var log := AppendAll(limit, [], history);
            AllLines(log) && |Concat(log)| <= limit && IsSuffix(log, history)
    decreases |history|
  {
    if history != [] {
      var init, r := history[..|history| - 1], history[|history| - 1];
      LogIsSuffixOfHistory(limit, init);
      var before := AppendAll(limit, [], init);
      AppendKeeps(limit, before, r);
      var after := Append(limit, before, r);
      assert history == init + [r];
      SuffixExtends(before, init, r);
      SuffixOfSuffix(after, before + [r], history);
    }
  }

  /** Every run of newest records that is shorter than the limit is in the log. */
  lemma {:induction false} LogHoldsShortSuffixes(limit: nat, older: seq<bytes>, newest: seq<bytes>)
    requires limit > 0 && AllLines(older) && AllLines(newest) && |Concat(newest)| < limit
    ensures IsSuffix(newest, AppendAll(limit, [], older + newest))
    decreases |newest|
  {
    if newest != [] {
      var init, r := newest[..|newest| - 1], newest[|newest| - 1];
      OneMoreRecord(limit, older, init, r);
      ConcatOne(init, r);
      assert newest == init + [r] && AllLines(init) && AllLines(older + init);
      LogIsSuffixOfHistory(limit, older + init);
      LogHoldsShortSuffixes(limit, older, init);
      TailStays(limit, AppendAll(limit, [], older + init), init, r);
    }
  }

  lemma OneMoreRecord(limit: nat, older: seq<bytes>, init: seq<bytes>, r: bytes)
    ensures AppendAll(limit, [], older + (init + [r])) == Append(limit, AppendAll(limit, [], older + init), r)
  {
    var history := older + (init + [r]);
    assert history[..|history| - 1] == older + init && history[|history| - 1] == r;
  }

  lemma TailStays(limit: nat, before: seq<bytes>, init: seq<bytes>, r: bytes)
    requires limit > 0 && AllLines(before) && IsLine(r) && IsSuffix(init, before) && |Concat(init + [r])| < limit
    ensures IsSuffix(init + [r], Append(limit, before, r))
  {
    SuffixExtends(init, before, r);
    StaysInTail(limit, before, r, init + [r]);
    AppendKeeps(limit, before, r);
    LongerSuffix(init + [r], Append(limit, before, r), before + [r]);
  }

  lemma LongerSuffix(a: seq<bytes>, b: seq<bytes>, c: seq<bytes>)
    requires IsSuffix(a, c) && IsSuffix(b, c) && |a| <= |b|
    ensures IsSuffix(a, b)
  {
    assert b[|b| - |a|..] == c[|c| - |a|..];
  }

  /** A suffix shorter than the limit survives the append. */
  lemma StaysInTail(limit: nat, rs: seq<bytes>, r: bytes, tail: seq<bytes>)
    requires limit > 0 && AllLines(rs) && IsLine(r) && IsSuffix(tail, rs + [r]) && |Concat(tail)| < limit
    ensures |tail| <= |Append(limit, rs, r)|
  {
    var j := |rs| + 1 - |tail|;
    assert (rs + [r])[j..] == tail;
    if |Concat(rs + [r])| > limit { TrimKeepsLongestSuffix(limit, rs, r, j); }
  }

  /** The log is the whole history exactly as long as that fits the limit. */
  lemma {:induction false} WholeWhileItFits(limit: nat, history: seq<bytes>)
    requires limit > 0 && AllLines(history)
    ensures AppendAll(limit, [], history) == history <==> |Concat(history)| <= limit
    decreases |history|
  {
    LogIsSuffixOfHistory(limit, history);
    if history != [] && |Concat(history)| <= limit {
      var init, r := history[..|history| - 1], history[|history| - 1];
      assert history == init + [r];
      ConcatOne(init, r);
      WholeWhileItFits(limit, init);
      AppendKeeps(limit, init, r);
    }
  }

  lemma SuffixExtends(s: seq<bytes>, whole: seq<bytes>, r: bytes)
    requires IsSuffix(s, whole)
    ensures IsSuffix(s + [r], whole + [r])
  {
    assert (whole + [r])[|whole| - |s|..] == whole[|whole| - |s|..] + [r];
  }

  lemma SuffixOfSuffix(a: seq<bytes>, b: seq<bytes>, c: seq<bytes>)
    requires IsSuffix(a, b) && IsSuffix(b, c)
    ensures IsSuffix(a, c)
  {
    assert c[|c| - |a|..] == b[|b| - |a|..];
  }

  // ---------- truncating an over-long record ----------

  const TRUNCATED_SUFFIX := "\n...[truncated to fit logs file limit]\n"

  /** Encoding of a failure record; the encoder escapes newlines. */
  type Encoder = (string, bytes) -> bytes

  ghost predicate EncodesLines(encode: Encoder) {
    forall target, logs :: NewlineFree(encode(target, logs))
  }

  ghost predicate NewlineFree(s: bytes) {
    forall i :: 0 <= i < |s| ==> s[i] != NEWLINE
  }

  function Candidate(logs: bytes, n: nat): bytes
    requires n <= |logs|
  {
    logs[..n] + Ascii(TRUNCATED_SUFFIX)
  }

  predicate Fits(encode: Encoder, limit: nat, target: string, logs: bytes) {
    |encode(target, logs)| + 1 <= limit
  }

  predicate FitsAt(encode: Encoder, limit: nat, target: string, logs: bytes, n: nat)
    requires n <= |logs|
  {
    Fits(encode, limit, target, Candidate(logs, n))
  }

  /** Which prefix lengths fit. */
  function Fitting(encode: Encoder, limit: nat, target: string, logs: bytes): nat -> bool {
    (n: nat) => n <= |logs| && FitsAt(encode, limit, target, logs, n)
  }

  function Mid(low: nat, high: int): (m: int)
    requires low <= high
    ensures low <= m <= high
  {
    low + (high - low) / 2
  }

  /** The length the binary search ends with, if any of its probes between `low` and `high` fits. */
  function Search(fits: nat -> bool, low: nat, high: int, best: Option<nat>): Option<nat>
    decreases high - low + 1
  {
    if low > high then best
    else
      var mid := Mid(low, high);
      if fits(mid) then Search(fits, mid + 1, high, Some(mid)) else Search(fits, low, mid - 1, best)
  }

  /** What is found fits, and nothing is found only if zero does not fit. */
  lemma {:induction false} SearchFits(fits: nat -> bool, low: nat, high: int, best: Option<nat>)
    requires low <= high + 1 && (best.Some? ==> best.value + 1 == low && fits(best.value))
    ensures var r := Search(fits, low, high, best);
            && (r.Some? ==> fits(r.value) && (r == best || low <= r.value <= high))
            && (r.None? && low == 0 <= high ==> !fits(0))
            && (best.Some? ==> r.Some? && r.value >= best.value)
    decreases high - low + 1
  {
    if low <= high {
      var mid := Mid(low, high);
      if fits(mid) {
        SearchFits(fits, mid + 1, high, Some(mid));
      } else {
        SearchFits(fits, low, mid - 1, best);
      }
    }
  }

  /** Nothing longer than what was found fits. */
  ghost predicate NoneAbove(fits: nat -> bool, found: int) {
    forall k: nat | k > found :: !fits(k)
  }

  function Found(r: Option<nat>): int {
    if r.Some? then r.value else -1
  }

  /** No probe of the search fails below a length that fits. */
  ghost predicate NeverMisled(fits: nat -> bool, low: nat, high: int)
    decreases high - low + 1
  {
    low <= high ==>
      var mid := Mid(low, high);
      if fits(mid) then NeverMisled(fits, mid + 1, high) else NoneAbove(fits, mid) && NeverMisled(fits, low, mid - 1)
  }

  lemma NoneAboveLess(fits: nat -> bool, mid: nat)
    requires NoneAbove(fits, mid) && !fits(mid)
    ensures NoneAbove(fits, mid - 1)
  {
  }

  lemma MisledMisses(fits: nat -> bool, low: nat, mid: nat, best: Option<nat>)
    requires low <= mid && !NoneAbove(fits, mid) && low == Found(best) + 1 && (best.Some? ==> fits(best.value))
    ensures !NoneAbove(fits, Found(Search(fits, low, mid - 1, best)))
  {
    var k: nat :| k > mid && fits(k);
    SearchFits(fits, low, mid - 1, best);
    assert k > Found(Search(fits, low, mid - 1, best));
  }

  lemma LongestUp(fits: nat -> bool, low: nat, high: int, best: Option<nat>)
    requires low <= high && fits(Mid(low, high))
    ensures Search(fits, low, high, best) == Search(fits, Mid(low, high) + 1, high, Some(Mid(low, high)))
    ensures NeverMisled(fits, low, high) == NeverMisled(fits, Mid(low, high) + 1, high)
  {
  }

  lemma LongestDown(fits: nat -> bool, low: nat, high: int, best: Option<nat>)
    requires low <= high && !fits(Mid(low, high))
    ensures Search(fits, low, high, best) == Search(fits, low, Mid(low, high) - 1, best)
    ensures NeverMisled(fits, low, high) ==
            (NoneAbove(fits, Mid(low, high)) && NeverMisled(fits, low, Mid(low, high) - 1))
  {
  }

  /** The search finds the greatest length that fits exactly when no probe of it misleads. */
  lemma {:induction false} LongestIff(fits: nat -> bool, low: nat, high: int, best: Option<nat>)
    requires low <= high + 1 && NoneAbove(fits, high) && low == Found(best) + 1 && (best.Some? ==> fits(best.value))
    ensures NoneAbove(fits, Found(Search(fits, low, high, best))) <==> NeverMisled(fits, low, high)
    decreases high - low + 1
  {
    if low <= high {
      var mid := Mid(low, high);
      if fits(mid) {
        LongestUp(fits, low, high, best);
        LongestIff(fits, mid + 1, high, Some(mid));
      } else {
        LongestDown(fits, low, high, best);
        if NoneAbove(fits, mid) {
          NoneAboveLess(fits, mid);
          LongestIff(fits, low, mid - 1, best);
        } else {
          MisledMisses(fits, low, mid, best);
        }
      }
    }
  }

  /** If a length fits, so does every shorter one. */
  ghost predicate Downward(fits: nat -> bool) {
    forall m: nat, n: nat | m <= n && fits(n) :: fits(m)
  }

  lemma {:induction false} DownwardNeverMisled(fits: nat -> bool, low: nat, high: int)
    requires Downward(fits)
    ensures NeverMisled(fits, low, high)
    decreases high - low + 1
  {
    if low <= high {
      var mid := Mid(low, high);
      DownwardNeverMisled(fits, mid + 1, high);
      DownwardNeverMisled(fits, low, mid - 1);
    }
  }

  function SearchAll(encode: Encoder, limit: nat, target: string, logs: bytes): (r: Option<nat>)
    ensures r.Some? ==> r.value <= |logs| && FitsAt(encode, limit, target, logs, r.value)
    ensures r.None? ==> !FitsAt(encode, limit, target, logs, 0)
  {
    SearchFits(Fitting(encode, limit, target, logs), 0, |logs|, None);
    Search(Fitting(encode, limit, target, logs), 0, |logs|, None)
  }

  /** For a record: the prefix kept is the longest that fits exactly when no probe misleads. */
  lemma KeepsLongestIff(encode: Encoder, limit: nat, target: string, logs: bytes)
    ensures var fits := Fitting(encode, limit, target, logs);
            && (NoneAbove(fits, Found(SearchAll(encode, limit, target, logs))) <==> NeverMisled(fits, 0, |logs|))
            && (Downward(fits) ==> NeverMisled(fits, 0, |logs|))
  {
    var fits := Fitting(encode, limit, target, logs);
    LongestIff(fits, 0, |logs|, None);
    if Downward(fits) { DownwardNeverMisled(fits, 0, |logs|); }
  }

  /**
   The binary search with its fallback to the marker alone, which is reached only if the marker does not fit either.
   */
  method Truncate(encode: Encoder, limit: nat, target: string, logs: bytes) returns (best: Option<bytes>)
    ensures var n := SearchAll(encode, limit, target, logs);
            best == if n.Some? then Some(Candidate(logs, n.value)) else None
    ensures best.Some? ==> Fits(encode, limit, target, best.value)
    ensures best.None? ==> !Fits(encode, limit, target, Ascii(TRUNCATED_SUFFIX))
  {
    ghost var fits := Fitting(encode, limit, target, logs);
    assert Candidate(logs, 0) == Ascii(TRUNCATED_SUFFIX);
    best := None;
    ghost var kept: Option<nat> := None;
    var low, high := 0, |logs|;
    while low <= high
      invariant 0 <= low <= high + 1 <= |logs| + 1
      invariant SearchAll(encode, limit, target, logs) == Search(fits, low, high, kept)
      invariant kept.Some? ==> kept.value <= |logs|
      invariant best == if kept.Some? then Some(Candidate(logs, kept.value)) else None
      decreases high - low + 1
    {
      var mid := low + (high - low) / 2;
      var candidate := logs[..mid] + Ascii(TRUNCATED_SUFFIX);
      if |encode(target, candidate)| + 1 <= limit {
        best, kept := Some(candidate), Some(mid);
        low := mid + 1;
      } else {
        high := mid - 1;
      }
    }
    if best.None? && Fits(encode, limit, target, Ascii(TRUNCATED_SUFFIX)) {
      best := Some(Ascii(TRUNCATED_SUFFIX));
    }
  }

  /**
   What the line for a record is: the record whenever it is within the limit; otherwise the prefix of the text that the
   search kept, with the marker; and none only if even the marker alone is over the limit.
   */
  ghost predicate LineIs(encode: Encoder, limit: nat, target: string, logs: bytes, line: Option<bytes>) {
    if |encode(target, logs)| + 1 <= limit then line == Some(encode(target, logs) + [NEWLINE])
    else if line.Some? then
      exists n: nat ::
        && n <= |logs| && n == Found(SearchAll(encode, limit, target, logs))
        && line.value == encode(target, logs[..n] + Ascii(TRUNCATED_SUFFIX)) + [NEWLINE]
    else |encode(target, Ascii(TRUNCATED_SUFFIX))| + 1 > limit
  }

  /** The line for a record: as it is if it fits, else with the prefix that the search finds. */
  function LineFor(encode: Encoder, limit: nat, target: string, logs: bytes): Option<bytes> {
    var n := SearchAll(encode, limit, target, logs);
    if Fits(encode, limit, target, logs) then Some(encode(target, logs) + [NEWLINE])
    else if n.Some? then Some(encode(target, Candidate(logs, n.value)) + [NEWLINE])
    else None
  }

  lemma LineForIs(encode: Encoder, limit: nat, target: string, logs: bytes)
    ensures LineIs(encode, limit, target, logs, LineFor(encode, limit, target, logs))
  {
    assert Candidate(logs, 0) == Ascii(TRUNCATED_SUFFIX);
  }

  /** The line to append: the record if it fits, else some prefix of its text with the marker, else nothing. */
  method MarshalLine(encode: Encoder, limit: nat, target: string, logs: bytes) returns (line: Option<bytes>)
    requires EncodesLines(encode)
    ensures line == LineFor(encode, limit, target, logs) && LineIs(encode, limit, target, logs, line)
    ensures line.Some? ==> IsLine(line.value) && |line.value| <= limit
  {
    LineForIs(encode, limit, target, logs);
    var payload := encode(target, logs);
    assert NewlineFree(payload);
    if |payload| + 1 <= limit {
      return Some(payload + [NEWLINE]);
    }
    var truncated := Truncate(encode, limit, target, logs);
    if truncated.None? {
      return None;
    }
    payload := encode(target, truncated.value);
    assert NewlineFree(payload);
    line := Some(payload + [NEWLINE]);
  }

  // ---------- an encoder the search is misled by ----------

  predicate TwoByte(s: bytes) {
    |s| > 1 && 0xC2 <= s[0] <= 0xDF && 0x80 <= s[1] <= 0xBF
  }

  /** How many bytes the first character has, and how it is escaped. */
  function Width(s: bytes): (w: nat)
    requires s != []
    ensures 0 < w <= |s|
  {
    if TwoByte(s) then 2 else 1
  }

  function Escaped(s: bytes): bytes
    requires s != []
  {
    if s[0] == NEWLINE then Ascii("\\n")
    else if s[0] < 0x80 then [s[0]]
    else if TwoByte(s) then s[..2]
    else Ascii("\\ufffd")
  }

  /** Go's string escaping as far as the example needs it: newlines, two-byte characters, and bytes that are neither. */
  function JsonText(s: bytes): bytes {
    if s == [] then [] else Escaped(s) + JsonText(s[Width(s)..])
  }

  function JsonRecord(target: string, logs: bytes): bytes {
    Ascii("{\"target\":\"") + Ascii(target) + Ascii("\",\"success\":false,\"logs\":\"") + JsonText(logs) + Ascii("\"}")
  }

  lemma RecordSize(target: string, logs: bytes)
    ensures |JsonRecord(target, logs)| == |JsonRecord(target, [])| + |JsonText(logs)|
  {
  }

  function Letters(k: nat): bytes {
    seq(k, _ => 0x61)
  }

  lemma {:induction false} LettersSize(k: nat, rest: bytes)
    ensures |JsonText(Letters(k) + rest)| == k + |JsonText(rest)|
  {
    if k == 0 {
      assert Letters(0) + rest == rest;
    } else {
      LettersSize(k - 1, rest);
      assert (Letters(k) + rest)[1..] == Letters(k - 1) + rest;
    }
  }

  /** Letters, one two-byte character in the middle, letters again. */
  function AccentedLogs(k: nat): bytes {
    Letters(k) + [0xC3, 0xA9] + Letters(k)
  }

  /** Cutting inside the character costs six bytes, keeping it whole costs two. */
  lemma CutInside(k: nat, tail: bytes)
    requires tail != [] && tail[0] == NEWLINE
    ensures |JsonText(Letters(k) + ([0xC3] + tail))| == k + 6 + |JsonText(tail)|
  {
    LettersSize(k, [0xC3] + tail);
    assert ([0xC3] + tail)[1..] == tail;
  }

  lemma CutAfter(k: nat, tail: bytes)
    ensures |JsonText(Letters(k) + ([0xC3, 0xA9] + tail))| == k + 2 + |JsonText(tail)|
  {
    LettersSize(k, [0xC3, 0xA9] + tail);
    assert ([0xC3, 0xA9] + tail)[2..] == tail && ([0xC3, 0xA9] + tail)[..2] == [0xC3, 0xA9];
  }

  lemma CutSizes(k: nat)
    ensures |JsonText(Candidate(AccentedLogs(k), k + 1))| == k + 6 + |JsonText(Ascii(TRUNCATED_SUFFIX))|
    ensures |JsonText(Candidate(AccentedLogs(k), k + 2))| == k + 2 + |JsonText(Ascii(TRUNCATED_SUFFIX))|
    ensures |JsonText(AccentedLogs(k))| == 2 * k + 2
  {
    var logs, tail := AccentedLogs(k), Ascii(TRUNCATED_SUFFIX);
    assert Candidate(logs, k + 1) == Letters(k) + ([0xC3] + tail);
    assert Candidate(logs, k + 2) == Letters(k) + ([0xC3, 0xA9] + tail);
    assert logs == Letters(k) + ([0xC3, 0xA9] + Letters(k));
    CutInside(k, tail);
    CutAfter(k, tail);
    CutAfter(k, Letters(k));
    LettersSize(k, []);
    assert Letters(k) + [] == Letters(k);
  }

  /** If the first probe fails the search ends below it. */
  lemma EndsBelowFirstProbe(fits: nat -> bool, n: nat, m: nat)
    requires n / 2 == m && !fits(m)
    ensures Found(Search(fits, 0, n, None)) < m
  {
    assert 0 + (n - 0) / 2 == m;
    SearchFits(fits, 0, m - 1, None);
  }

  lemma MissedSizes(k: nat, target: string, limit: nat)
    requires k > |JsonText(Ascii(TRUNCATED_SUFFIX))|
    requires limit == |JsonRecord(target, Candidate(AccentedLogs(k), k + 2))| + 1
    ensures !Fits(JsonRecord, limit, target, AccentedLogs(k))
    ensures FitsAt(JsonRecord, limit, target, AccentedLogs(k), k + 2)
    ensures !FitsAt(JsonRecord, limit, target, AccentedLogs(k), k + 1)
  {
    CutSizes(k);
    RecordSize(target, AccentedLogs(k));
    RecordSize(target, Candidate(AccentedLogs(k), k + 1));
    RecordSize(target, Candidate(AccentedLogs(k), k + 2));
  }

  /**
   A record too long for the limit, a prefix that ends after the two-byte character and fits, and a search that tries
   the cut inside the character, finds it too long and ends before the character.
   */
  lemma LongerPrefixMissed(k: nat, target: string, logs: bytes, limit: nat)
    requires k > |JsonText(Ascii(TRUNCATED_SUFFIX))| && logs == AccentedLogs(k)
    requires limit == |JsonRecord(target, Candidate(logs, k + 2))| + 1
    ensures !Fits(JsonRecord, limit, target, logs) && FitsAt(JsonRecord, limit, target, logs, k + 2)
    ensures Found(SearchAll(JsonRecord, limit, target, logs)) <= k
  {
    MissedSizes(k, target, limit);
    EndsBelowFirstProbe(Fitting(JsonRecord, limit, target, logs), |logs|, k + 1);
  }

  /** A cut at `n` falls inside a two-byte character. */
  predicate CutsCharacter(logs: bytes, n: nat) {
    0 < n < |logs| && 0xC2 <= logs[n - 1] <= 0xDF && 0x80 <= logs[n] <= 0xBF
  }

  lemma FirstCharacter(a: bytes, b: bytes)
    requires a != [] && !CutsCharacter(a + b, |a|)
    ensures Width(a + b) == Width(a) && Escaped(a + b) == Escaped(a)
    ensures (a + b)[Width(a)..] == a[Width(a)..] + b
    ensures !CutsCharacter(a[Width(a)..] + b, |a[Width(a)..]|)
  {
    var whole, rest := a + b, a[Width(a)..];
    assert whole[0] == a[0];
    assert |a| > 1 ==> whole[1] == a[1];
    assert whole[Width(a)..] == rest + b;
    if |rest| > 0 {
      assert (rest + b)[|rest| - 1] == whole[|a| - 1];
      assert b != [] ==> (rest + b)[|rest|] == whole[|a|];
    }
  }

  /** Escaping adds up over a cut that is not inside a character. */
  lemma {:induction false} JsonSizeSplits(a: bytes, b: bytes)
    requires !CutsCharacter(a + b, |a|)
    ensures |JsonText(a + b)| == |JsonText(a)| + |JsonText(b)|
    decreases |a|
  {
    if a == [] {
      assert a + b == b;
    } else {
      FirstCharacter(a, b);
      JsonSizeSplits(a[Width(a)..], b);
      FirstSize(a + b);
      FirstSize(a);
    }
  }

  lemma FirstSize(s: bytes)
    requires s != []
    ensures |JsonText(s)| == |Escaped(s)| + |JsonText(s[Width(s)..])|
  {
  }

  lemma CandidateSize(target: string, logs: bytes, n: nat)
    requires n <= |logs|
    ensures |JsonRecord(target, Candidate(logs, n))| ==
            |JsonRecord(target, [])| + |JsonText(logs[..n])| + |JsonText(Ascii(TRUNCATED_SUFFIX))|
  {
    var tail := Ascii(TRUNCATED_SUFFIX);
    assert tail[0] == NEWLINE;
    JsonSizeSplits(logs[..n], tail);
    RecordSize(target, Candidate(logs, n));
  }

  /** A prefix that ends between characters is never longer, encoded, than one that extends it. */
  lemma BoundarySizes(target: string, logs: bytes, m: nat, k: nat)
    requires m <= k <= |logs| && !CutsCharacter(logs, m)
    ensures |JsonRecord(target, Candidate(logs, m))| <= |JsonRecord(target, Candidate(logs, k))|
  {
    CandidateSize(target, logs, m);
    CandidateSize(target, logs, k);
    PrefixSizes(logs, m, k);
  }

  lemma PrefixSizes(logs: bytes, m: nat, k: nat)
    requires m <= k <= |logs| && !CutsCharacter(logs, m)
    ensures |JsonText(logs[..m])| <= |JsonText(logs[..k])|
  {
    assert logs[..k] == logs[..m] + logs[m..k];
    JsonSizeSplits(logs[..m], logs[m..k]);
  }

  /** No probe that fails falls inside a character. */
  ghost predicate FailsBetweenCharacters(fits: nat -> bool, logs: bytes, low: nat, high: int)
    decreases high - low + 1
  {
    low <= high ==>
      var mid := Mid(low, high);
      if fits(mid) then FailsBetweenCharacters(fits, logs, mid + 1, high)
      else !CutsCharacter(logs, mid) && FailsBetweenCharacters(fits, logs, low, mid - 1)
  }

  lemma BoundaryProbe(limit: nat, target: string, logs: bytes, m: nat)
    requires !Fitting(JsonRecord, limit, target, logs)(m) && !CutsCharacter(logs, m)
    ensures NoneAbove(Fitting(JsonRecord, limit, target, logs), m)
  {
    forall k: nat | k > m ensures !Fitting(JsonRecord, limit, target, logs)(k) {
      if k <= |logs| { BoundarySizes(target, logs, m, k); }
    }
  }

  lemma {:induction false} BetweenNeverMisled(fits: nat -> bool, logs: bytes, low: nat, high: int)
    requires forall m: nat :: !fits(m) && !CutsCharacter(logs, m) ==> NoneAbove(fits, m)
    requires FailsBetweenCharacters(fits, logs, low, high)
    ensures NeverMisled(fits, low, high)
    decreases high - low + 1
  {
    if low <= high {
      var mid := Mid(low, high);
      if fits(mid) {
        LongestUp(fits, low, high, None);
        BetweenNeverMisled(fits, logs, mid + 1, high);
      } else {
        LongestDown(fits, low, high, None);
        BetweenNeverMisled(fits, logs, low, mid - 1);
      }
    }
  }

  /**
   For JSON escaping a condition on the text: the longest prefix that fits is kept if no failing probe falls inside a
   character, and so for every limit if the text has no two-byte characters at all.
   */
  lemma BetweenKeepsLongest(limit: nat, target: string, logs: bytes)
    ensures var fits := Fitting(JsonRecord, limit, target, logs);
            FailsBetweenCharacters(fits, logs, 0, |logs|) ==>
              NoneAbove(fits, Found(SearchAll(JsonRecord, limit, target, logs)))
    ensures (forall n: nat :: !CutsCharacter(logs, n)) ==>
              NoneAbove(Fitting(JsonRecord, limit, target, logs), Found(SearchAll(JsonRecord, limit, target, logs)))
  {
    var fits := Fitting(JsonRecord, limit, target, logs);
    KeepsLongestIff(JsonRecord, limit, target, logs);
    if forall n: nat :: !CutsCharacter(logs, n) { NoCutsBetween(fits, logs, 0, |logs|); }
    forall m: nat | !fits(m) && !CutsCharacter(logs, m) ensures NoneAbove(fits, m) {
      BoundaryProbe(limit, target, logs, m);
    }
    if FailsBetweenCharacters(fits, logs, 0, |logs|) { BetweenNeverMisled(fits, logs, 0, |logs|); }
  }

  lemma {:induction false} NoCutsBetween(fits: nat -> bool, logs: bytes, low: nat, high: int)
    requires forall n: nat :: !CutsCharacter(logs, n)
    ensures FailsBetweenCharacters(fits, logs, low, high)
    decreases high - low + 1
  {
    if low <= high {
      var mid := Mid(low, high);
      NoCutsBetween(fits, logs, mid + 1, high);
      NoCutsBetween(fits, logs, low, mid - 1);
    }
  }

  // ---------- reading back ----------

  /** What decoding a line yields: nothing for white space, an error, or a record. */
  datatype Decoded = Blank | Malformed | Record(target: string, success: bool, logs: bytes)

  type Decoder = bytes -> Decoded

  predicate Wanted(targets: Option<set<string>>, target: string) {
    targets.None? || target in targets.value
  }

  /** One line into the map: a failure replaces what an earlier line said of its target. */
  function Note(decode: Decoder, targets: Option<set<string>>, m: map<string, bytes>,
        line: bytes): Option<map<string, bytes>> {
    match decode(line)
    case Blank => Some(m)
    case Malformed => None
    case Record(target, success, logs) => if !success && Wanted(targets, target) then Some(m[target := logs])
        else Some(m)
  }

  /** The records from the oldest on. */
  function Latest(decode: Decoder, targets: Option<set<string>>, m: map<string, bytes>,
        rs: seq<bytes>): Option<map<string, bytes>>
    decreases |rs|
  {
    if rs == [] then Some(m)
    else
      var next := Note(decode, targets, m, rs[0]);
      if next.None? then None else Latest(decode, targets, next.value, rs[1..])
  }

  /** The lines of any file, each with its newline; the last one may lack it. */
  function Lines(file: bytes): seq<bytes>
    decreases |file|
  {
    if file == [] then [] else [file[..NextLine(file, 0)]] + Lines(file[NextLine(file, 0)..])
  }

  /** The lines are the whole file, in order; each ends at the first newline in it, but for a torn last one. */
  lemma {:induction false} LinesAreTheFile(file: bytes)
    ensures var lines := Lines(file);
            && Concat(lines) == file
            && (forall i :: 0 <= i < |lines| ==> IsLine(lines[i]) || (i == |lines| - 1 && NewlineFree(lines[i])))
    decreases |file|
  {
    if file != [] {
      var end := NextLine(file, 0);
      FirstLine(file, 0);
      LinesAreTheFile(file[end..]);
      var lines, rest := Lines(file), Lines(file[end..]);
      assert lines[1..] == rest && file == file[..end] + file[end..];
      if rest == [] { assert end == |file|; }
    }
  }

  lemma {:induction false} FirstLine(s: bytes, from: nat)
    requires from < |s| && NewlineFree(s[..from])
    ensures var r := NextLine(s, from); IsLine(s[..r]) || (r == |s| && NewlineFree(s))
    decreases |s| - from
  {
    if s[from] != NEWLINE {
      assert s[..from + 1] == s[..from] + [s[from]];
      if from + 1 < |s| { FirstLine(s, from + 1); }
    }
  }

  /** Of a log of records the lines are the records. */
  lemma {:induction false} LinesOfRecords(rs: seq<bytes>)
    requires AllLines(rs)
    ensures Lines(Concat(rs)) == rs
    decreases |rs|
  {
    if rs != [] {
      var r, rest := rs[0], Concat(rs[1..]);
      assert IsLine(r);
      WithinLine(r, rest, 0);
      assert (r + rest)[..|r|] == r && (r + rest)[|r|..] == rest;
      LinesOfRecords(rs[1..]);
      assert rs == [r] + rs[1..];
    }
  }

  /** Reading fails exactly when some line does not decode, wherever it is. */
  lemma {:induction false} FailsIffMalformed(decode: Decoder, targets: Option<set<string>>, m: map<string, bytes>,
        rs: seq<bytes>)
    ensures Latest(decode, targets, m, rs).None? <==> exists i :: 0 <= i < |rs| && decode(rs[i]).Malformed?
    decreases |rs|
  {
    if rs != [] && !decode(rs[0]).Malformed? {
      var next, rest := Note(decode, targets, m, rs[0]).value, rs[1..];
      FailsIffMalformed(decode, targets, next, rest);
      if i :| 0 <= i < |rest| && decode(rest[i]).Malformed? { assert rs[i + 1] == rest[i]; }
      if i :| 0 <= i < |rs| && decode(rs[i]).Malformed? { assert rest[i - 1] == rs[i]; }
    }
  }

  /** Reads any file line by line. */
  method LoadLatest(decode: Decoder, targets: Option<set<string>>, file: bytes)
    returns (result: Option<map<string, bytes>>)
    ensures result == Latest(decode, targets, map[], Lines(file))
    ensures result.None? <==> exists line <- Lines(file) :: decode(line).Malformed?
  {
    FailsIffMalformed(decode, targets, map[], Lines(file));
    var m: map<string, bytes> := map[];
    var rest := file;
    while |rest| > 0
      invariant Latest(decode, targets, map[], Lines(file)) == Latest(decode, targets, m, Lines(rest))
      decreases |rest|
    {
      var end := NextLine(rest, 0);
      assert Lines(rest)[0] == rest[..end] && Lines(rest)[1..] == Lines(rest[end..]);
      var next := Note(decode, targets, m, rest[..end]);
      if next.None? {
        return None;
      }
      m := next.value;
      rest := rest[end..];
    }
    result := Some(m);
  }

  ghost predicate Mentions(decode: Decoder, targets: Option<set<string>>, line: bytes, target: string) {
    decode(line).Record? && !decode(line).success && decode(line).target == target
    && (targets.None? || target in targets.value)
  }

  /** For each target the newest surviving failure is the one reported, and only such targets are. */
  lemma {:induction false} NewestWins(decode: Decoder, targets: Option<set<string>>, m: map<string, bytes>,
        rs: seq<bytes>, target: string)
    requires Latest(decode, targets, m, rs).Some?
    ensures var result := Latest(decode, targets, m, rs).value;
            if exists i :: 0 <= i < |rs| && Mentions(decode, targets, rs[i], target)
            then exists i :: 0 <= i < |rs| && Mentions(decode, targets, rs[i], target)
                             && (forall j :: i < j < |rs| ==> !Mentions(decode, targets, rs[j], target))
                             && target in result && result[target] == decode(rs[i]).logs
            else (target in result <==> target in m) && (target in m ==> result[target] == m[target])
    decreases |rs|
  {
    if rs != [] {
      var next, rest := Note(decode, targets, m, rs[0]).value, rs[1..];
      NewestWins(decode, targets, next, rest, target);
      if i :| 0 <= i < |rest| && Mentions(decode, targets, rest[i], target) {
        var k :| 0 <= k < |rest| && Mentions(decode, targets, rest[k], target)
                 && forall j :: k < j < |rest| ==> !Mentions(decode, targets, rest[j], target);
        assert Mentions(decode, targets, rs[k + 1], target);
        forall j | k + 1 < j < |rs| ensures !Mentions(decode, targets, rs[j], target) { assert rs[j] == rest[j - 1]; }
      } else {
        forall j | 0 < j < |rs| ensures !Mentions(decode, targets, rs[j], target) { assert rs[j] == rest[j - 1]; }
      }
    }
  }

  // ---------- the store ----------

  class FailureLogStore {
    const limit: nat
    const encode: Encoder
    var file: bytes
    ghost var records: seq<bytes>

    ghost predicate Valid()
      reads this
    {
      && limit > 0 && EncodesLines(encode)
      && AllLines(records) && file == Concat(records) && |file| <= limit
    }

    constructor (limit: nat, encode: Encoder)
      requires limit > 0 && EncodesLines(encode)
      ensures Valid() && records == [] && this.limit == limit && this.encode == encode
    {
      this.limit, this.encode := limit, encode;
      file, records := [], [];
    }

    /**
     `blank` says that the target is white space; such calls and empty logs do nothing. Any other call appends the
     record's line, whole or truncated, and fails exactly when there is none.
     */
    method AppendFailure(target: string, blank: bool, logs: bytes) returns (ok: bool)
      requires Valid()
      modifies this`file, this`records
      ensures Valid()
      ensures ok <==> blank || logs == [] || LineFor(encode, limit, target, logs).Some?
      ensures LineIs(encode, limit, target, logs, LineFor(encode, limit, target, logs))
      ensures records == if !blank && logs != [] && ok
                         then Append(limit, old(records), LineFor(encode, limit, target, logs).value) else old(records)
      ensures !blank && logs != [] && ok ==>
                var line := LineFor(encode, limit, target, logs).value;
                && |line| <= limit && (|old(file)| + |line| <= limit ==> file == old(file) + line)
    {
      LineForIs(encode, limit, target, logs);
      if blank || logs == [] {
        return true;
      }
      var payload := MarshalLine(encode, limit, target, logs);
      if payload.None? {
        return false;
      }
      ok := true;
      AppendLine(payload.value);
    }

    /** Appends to the file and, if it grew over the limit, cuts it at a record boundary. */
    method AppendLine(line: bytes)
      requires Valid() && IsLine(line)
      modifies this`file, this`records
      ensures Valid() && records == Append(limit, old(records), line)
      ensures |old(file)| + |line| <= limit ==> file == old(file) + line
    {
      AppendKeeps(limit, records, line);
      ConcatOne(records, line);
      file := file + line;
      if |file| > limit {
        OffsetIsBoundary(records + [line], |file| - limit);
        var offset := FindKeepOffset(file, |file| - limit);
        file := file[offset..];
      }
      records := Append(limit, records, line);
    }
  }
}
