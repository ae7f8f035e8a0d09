/**
 Time intervals of a build: merging, the length of a union and the length of
 an overlap, in nanoseconds since the Unix epoch. The reference meaning of a
 family of intervals is the set of nanoseconds it covers.
 */
module Intervals {
  import opened Orders
  import opened Sets

  newtype int64 = x: int | -0x8000_0000_0000_0000 <= x < 0x8000_0000_0000_0000

  const NS_PER_SECOND := 1_000_000_000
  const MAX_SECONDS := 86400
  const MAX_NS := MAX_SECONDS * NS_PER_SECOND
  const DAY_NS := 86400 * NS_PER_SECOND

  // The first instants of the years 2000 and 2201.
  const YEAR_2000 := 946_684_800 * NS_PER_SECOND
  const YEAR_2201 := 7_289_654_400 * NS_PER_SECOND

  // A start is checked in its own zone, so in UTC it can be off by up to a day.
  const WINDOW_START := YEAR_2000 - DAY_NS
  const WINDOW_END := YEAR_2201 + DAY_NS + MAX_NS

  datatype Interval = Interval(start: int, end: int)

  ghost predicate InWindow(s: seq<Interval>) {
    forall i :: 0 <= i < |s| ==> WINDOW_START <= s[i].start <= s[i].end <= WINDOW_END
  }

  predicate Covers(x: Interval, t: int) {
    x.start <= t < x.end
  }

  ghost function Span(x: Interval): set<int> {
    set t | x.start <= t < x.end && Covers(x, t)
  }

  /** The nanoseconds covered by a family. */
  ghost function Cover(s: seq<Interval>): set<int> {
    set i, t | 0 <= i < |s| && s[i].start <= t < s[i].end && Covers(s[i], t) :: t
  }

  lemma {:induction false} SpanSize(x: Interval)
    requires x.start <= x.end
    ensures |Span(x)| == x.end - x.start
    decreases x.end - x.start
  {
    if x.start < x.end {
      var y := x.(end := x.end - 1);
      SpanSize(y);
      assert Span(x) == Span(y) + {x.end - 1};
    } else {
      assert Span(x) == {};
    }
  }

  lemma CoverFits(s: seq<Interval>)
    requires InWindow(s)
    ensures |Cover(s)| <= WINDOW_END - WINDOW_START
  {
    var window := Interval(WINDOW_START, WINDOW_END);
    SpanSize(window);
    assert Cover(s) <= Span(window);
    SubsetSize(Cover(s), Span(window));
  }

  /** The order in which a family is listed does not matter. */
  lemma CoverIgnoresOrder(s: seq<Interval>, t: seq<Interval>)
    requires multiset(s) == multiset(t)
    ensures Cover(s) == Cover(t)
  {
    CoverGrows(s, t);
    CoverGrows(t, s);
  }

  lemma CoverGrows(s: seq<Interval>, t: seq<Interval>)
    requires multiset(s) <= multiset(t)
    ensures Cover(s) <= Cover(t)
  {
    forall x | x in Cover(s) ensures x in Cover(t) {
      var i :| 0 <= i < |s| && Covers(s[i], x);
      assert s[i] in multiset(s);
      assert s[i] in t;
      var j :| 0 <= j < |t| && t[j] == s[i];
      assert Covers(t[j], x);
    }
  }

  ghost predicate SortedByStart(s: seq<Interval>) {
    forall i :: 0 < i < |s| ==> s[i - 1].start <= s[i].start
  }

  /** Merged intervals: each one ends strictly before the next begins. */
  ghost predicate Separated(s: seq<Interval>) {
    && (forall i :: 0 <= i < |s| ==> s[i].start <= s[i].end)
    && (forall i, j :: 0 <= i < j < |s| ==> s[i].end < s[j].start)
  }

  /** Stands for the library sort by start. */
  method SortByStart(s: seq<Interval>) returns (r: seq<Interval>)
    ensures SortedByStart(r) && multiset(r) == multiset(s)
  {
    r := Sort(s, (x: Interval, y: Interval) => x.start < y.start);
  }

  lemma CoverExtends(s: seq<Interval>, x: Interval)
    ensures Cover(s + [x]) == Cover(s) + Span(x)
  {
    forall t | t in Cover(s) + Span(x) ensures t in Cover(s + [x]) {
      if t in Cover(s) {
        var i :| 0 <= i < |s| && Covers(s[i], t);
        assert Covers((s + [x])[i], t);
      } else {
        assert Covers((s + [x])[|s|], t);
      }
    }
    forall t | t in Cover(s + [x]) ensures t in Cover(s) + Span(x) {
      var i :| 0 <= i < |s + [x]| && Covers((s + [x])[i], t);
      assert i < |s| ==> Covers(s[i], t);
    }
  }

  /** One round of the merge loop: start a new interval or let the last one absorb `x`. */
  function Absorb(merged: seq<Interval>, x: Interval): seq<Interval> {
    if merged == [] || x.start > merged[|merged| - 1].end then merged + [x]
    else if x.end > merged[|merged| - 1].end then merged[|merged| - 1 := merged[|merged| - 1].(end := x.end)]
    else merged
  }

  lemma AbsorbKeepsShape(merged: seq<Interval>, x: Interval)
    requires Separated(merged) && InWindow(merged) && InWindow([x])
    requires merged != [] ==> merged[|merged| - 1].start <= x.start
    ensures var r := Absorb(merged, x); Separated(r) && InWindow(r) && r != [] && r[|r| - 1].start <= x.start
  {
    assert [x][0] == x;
    if merged == [] || x.start > merged[|merged| - 1].end {
      ShapeExtends(merged, x);
    } else if x.end > merged[|merged| - 1].end {
      ShapeGrows(merged, x.end);
    }
  }

  lemma ShapeExtends(merged: seq<Interval>, x: Interval)
    requires Separated(merged) && InWindow(merged) && InWindow([x]) && x.start <= x.end
    requires merged != [] ==> merged[|merged| - 1].end < x.start
    ensures Separated(merged + [x]) && InWindow(merged + [x])
  {
    var more := merged + [x];
    assert [x][0] == x;
    forall i, j | 0 <= i < j < |more| ensures more[i].end < more[j].start {
      if j == |merged| && i < |merged| - 1 { assert merged[i].end < merged[|merged| - 1].start; }
    }
  }

  lemma ShapeGrows(merged: seq<Interval>, end: int)
    requires Separated(merged) && InWindow(merged) && merged != [] && merged[|merged| - 1].end < end <= WINDOW_END
    ensures var grown := merged[|merged| - 1 := merged[|merged| - 1].(end := end)]; Separated(grown) && InWindow(grown)
  {
  }

  lemma AbsorbKeepsCover(merged: seq<Interval>, x: Interval)
    requires merged != [] ==>
               merged[|merged| - 1].start <= x.start && merged[|merged| - 1].start <= merged[|merged| - 1].end
    ensures Cover(Absorb(merged, x)) == Cover(merged) + Span(x)
  {
    if merged == [] || x.start > merged[|merged| - 1].end {
      CoverExtends(merged, x);
    } else {
      var last := merged[|merged| - 1];
      var before := merged[..|merged| - 1];
      assert merged == before + [last];
      CoverExtends(before, last);
      if x.end > last.end {
        var grown := last.(end := x.end);
        CoverExtends(before, grown);
        assert Absorb(merged, x) == before + [grown];
        assert Span(grown) == Span(last) + Span(x);
      } else {
        assert Span(x) <= Span(last);
      }
    }
  }

  /** Touching or overlapping neighbours are merged; nothing covered is gained or lost. */
  method UnionIntervals(intervals: seq<Interval>) returns (merged: seq<Interval>)
    requires InWindow(intervals)
    ensures Separated(merged) && InWindow(merged)
    ensures Cover(merged) == Cover(intervals)
    ensures merged == [] <==> intervals == []
  {
    var s := SortByStart(intervals);
    SortedFamily(s, intervals);
    merged := [];
    for n := 0 to |s|
      invariant Separated(merged) && InWindow(merged)
      invariant merged == [] <==> n == 0
      invariant merged != [] && n < |s| ==> merged[|merged| - 1].start <= s[n].start
      invariant Cover(merged) == Cover(s[..n])
    {
      assert s[..n + 1] == s[..n] + [s[n]];
      CoverExtends(s[..n], s[n]);
      AbsorbKeepsShape(merged, s[n]);
      AbsorbKeepsCover(merged, s[n]);
      merged := Absorb(merged, s[n]);
    }
    assert s[..|s|] == s;
  }

  lemma SortedFamily(s: seq<Interval>, t: seq<Interval>)
    requires multiset(s) == multiset(t) && InWindow(t)
    ensures InWindow(s) && Cover(s) == Cover(t) && |s| == |t|
  {
    CoverIgnoresOrder(s, t);
    assert |s| == |multiset(s)| == |multiset(t)| == |t|;
    forall i | 0 <= i < |s| ensures WINDOW_START <= s[i].start <= s[i].end <= WINDOW_END {
      assert s[i] in multiset(s);
      assert s[i] in t;
    }
  }

  lemma SeparatedPrefix(s: seq<Interval>, n: nat)
    requires Separated(s) && n < |s|
    ensures |Cover(s[..n + 1])| == |Cover(s[..n])| + s[n].end - s[n].start
  {
    assert s[..n + 1] == s[..n] + [s[n]];
    CoverExtends(s[..n], s[n]);
    SpanSize(s[n]);
    assert Cover(s[..n]) !! Span(s[n]);
  }

  /** The sum of the merged lengths is the exact count of covered nanoseconds, and never overflows. */
  method UnionNanoseconds(merged: seq<Interval>) returns (duration: int64)
    requires Separated(merged) && InWindow(merged)
    ensures duration as int == |Cover(merged)|
  {
    duration := 0;
    assert Cover(merged[..0]) == {};
    for n := 0 to |merged|
      invariant duration as int == |Cover(merged[..n])|
    {
      SeparatedPrefix(merged, n);
      CoverFits(merged[..n + 1]);
      duration := duration + (merged[n].end - merged[n].start) as int64;
    }
    assert merged[..|merged|] == merged;
  }

  function OverlapLength(x: Interval, y: Interval): nat {
    Max(0, Min(x.end, y.end) - Max(x.start, y.start))
  }

  function Common(x: Interval, y: Interval): Interval {
    Interval(Max(x.start, y.start), Min(x.end, y.end))
  }

  lemma CommonSize(x: Interval, y: Interval)
    ensures Span(x) * Span(y) == Span(Common(x, y))
    ensures |Span(Common(x, y))| == OverlapLength(x, y)
  {
    var c := Common(x, y);
    if c.start <= c.end {
      SpanSize(c);
    } else {
      assert Span(c) == {};
    }
  }

  lemma CoverHead(a: seq<Interval>)
    requires Separated(a) && a != []
    ensures Cover(a) == Span(a[0]) + Cover(a[1..])
    ensures Span(a[0]) !! Cover(a[1..])
    ensures Separated(a[1..])
  {
    var rest := a[1..];
    forall t | t in Cover(a) ensures t in Span(a[0]) + Cover(rest) {
      var i :| 0 <= i < |a| && Covers(a[i], t);
      assert i > 0 ==> Covers(rest[i - 1], t);
    }
    forall t | t in Cover(rest) ensures t in Cover(a) && t !in Span(a[0]) {
      var i :| 0 <= i < |rest| && Covers(rest[i], t);
      assert Covers(a[i + 1], t);
    }
    assert forall t :: t in Span(a[0]) ==> Covers(a[0], t);
  }

  lemma MeetSplits(head: set<int>, rest: set<int>, other: set<int>)
    requires head !! rest
    ensures |(head + rest) * other| == |head * other| + |rest * other|
  {
    assert (head + rest) * other == head * other + rest * other;
  }

  /** An interval that ends no later than the first of a separated family meets only that first one. */
  lemma MeetsFirstOnly(x: Interval, b: seq<Interval>)
    requires Separated(b) && b != [] && x.end <= b[0].end
    ensures Span(x) * Cover(b) == Span(x) * Span(b[0])
  {
    CoverHead(b);
    forall t | t in Cover(b[1..]) ensures t !in Span(x) {
      var i :| 0 <= i < |b[1..]| && Covers(b[1..][i], t);
      assert b[1..][i] == b[i + 1];
    }
  }

  /** Whichever interval ends first has its whole overlap with the other family accounted for. */
  lemma SweepStep(a: seq<Interval>, b: seq<Interval>)
    requires Separated(a) && Separated(b) && a != [] && b != [] && a[0].end <= b[0].end
    ensures |Cover(a) * Cover(b)| == OverlapLength(a[0], b[0]) + |Cover(a[1..]) * Cover(b)|
  {
    CoverHead(a);
    CommonSize(a[0], b[0]);
    MeetsFirstOnly(a[0], b);
    MeetSplits(Span(a[0]), Cover(a[1..]), Cover(b));
  }

  /** The nanoseconds both families cover from the two positions on. */
  ghost function OverlapFrom(a: seq<Interval>, i: nat, b: seq<Interval>, j: nat): nat
    requires i <= |a| && j <= |b|
  {
    |Cover(a[i..]) * Cover(b[j..])|
  }

  lemma OverlapEnds(a: seq<Interval>, i: nat, b: seq<Interval>, j: nat)
    requires i <= |a| && j <= |b|
    ensures i == |a| || j == |b| ==> OverlapFrom(a, i, b, j) == 0
    ensures i == 0 && j == 0 ==> OverlapFrom(a, i, b, j) == |Cover(a) * Cover(b)|
  {
    if i == |a| || j == |b| {
      assert Cover(a[i..]) * Cover(b[j..]) == {};
    }
    assert a[0..] == a && b[0..] == b;
  }

  lemma SweepAt(a: seq<Interval>, i: nat, b: seq<Interval>, j: nat)
    requires Separated(a) && Separated(b) && i < |a| && j < |b|
    ensures var (k, l) := if a[i].end < b[j].end then (i + 1, j) else (i, j + 1);
            OverlapFrom(a, i, b, j) == OverlapLength(a[i], b[j]) + OverlapFrom(a, k, b, l)
  {
    assert a[i..][1..] == a[i + 1..] && b[j..][1..] == b[j + 1..];
    if a[i].end < b[j].end {
      SweepStep(a[i..], b[j..]);
    } else {
      SweepStep(b[j..], a[i..]);
      assert Cover(a[i..]) * Cover(b[j..]) == Cover(b[j..]) * Cover(a[i..]);
      assert Cover(a[i..]) * Cover(b[j + 1..]) == Cover(b[j + 1..]) * Cover(a[i..]);
    }
  }

  /** The later start and the earlier end, as the sweep compares them. */
  method SharedNanoseconds(x: Interval, y: Interval) returns (shared: int)
    ensures shared == OverlapLength(x, y)
  {
    var start, end := x.start, x.end;
    if y.start > start {
      start := y.start;
    }
    if y.end < end {
      end := y.end;
    }
    shared := if end > start then end - start else 0;
  }

  /** The two-pointer sweep counts exactly the nanoseconds covered by both families. */
  method OverlapNanoseconds(a: seq<Interval>, b: seq<Interval>) returns (overlap: int64)
    requires Separated(a) && Separated(b) && InWindow(a) && InWindow(b)
    ensures overlap as int == |Cover(a) * Cover(b)|
  {
    overlap := 0;
    var i, j := 0, 0;
    CoverFits(a);
    OverlapAtMostUnion(a, b);
    OverlapEnds(a, 0, b, 0);
    ghost var total := |Cover(a) * Cover(b)|;
    while i < |a| && j < |b|
      invariant 0 <= i <= |a| && 0 <= j <= |b| && overlap >= 0
      invariant overlap as int + OverlapFrom(a, i, b, j) == total
      decreases |a| - i + |b| - j
    {
      SweepAt(a, i, b, j);
      var shared := SharedNanoseconds(a[i], b[j]);
      overlap := overlap + shared as int64;
      if a[i].end < b[j].end {
        i := i + 1;
      } else {
        j := j + 1;
      }
    }
    OverlapEnds(a, i, b, j);
  }

  /** An overlap never exceeds either union. */
  lemma OverlapAtMostUnion(a: seq<Interval>, b: seq<Interval>)
    ensures |Cover(a) * Cover(b)| <= |Cover(a)|
    ensures |Cover(a) * Cover(b)| <= |Cover(b)|
  {
    SubsetSize(Cover(a) * Cover(b), Cover(a));
    SubsetSize(Cover(a) * Cover(b), Cover(b));
  }
}
