/**
 The bounded diagnostics buffer: it keeps the last mebibyte of everything
 written and remembers whether "connection refused" ever went by, ignoring
 ASCII case, however the text was cut into writes.
 */
module TailBuffer {
  import opened Bytes
  import opened Orders

  const MAX_OUTPUT := 1024 * 1024
  const TRUNCATED_MARKER := "...[earlier command output truncated]\n"
  const HINT := "connection refused"

  function Fold(b: byte): byte {
    if 65 <= b <= 90 then b + 32 else b
  }

  /** A byte stands for itself, or for the small letter of which it is the capital. */
  lemma FoldMeans(b: byte, c: byte)
    ensures Fold(b) == c <==>
            || (b == c && c as char !in "ABCDEFGHIJKLMNOPQRSTUVWXYZ")
            || (c as char in "abcdefghijklmnopqrstuvwxyz" && b as int == c as int - ('a' as int - 'A' as int))
  {
    LettersAre("ABCDEFGHIJKLMNOPQRSTUVWXYZ", 'A', c as char);
    LettersAre("abcdefghijklmnopqrstuvwxyz", 'a', c as char);
  }

  lemma LettersAre(letters: string, first: char, c: char)
    requires |letters| == 26 && first as int < 200
    requires forall i :: 0 <= i < 26 ==> letters[i] as int == first as int + i
    ensures c in letters <==> first as int <= c as int < first as int + 26
  {
    if first as int <= c as int < first as int + 26 { assert letters[c as int - first as int] == c; }
  }

  /** The pattern occurs at `i`, up to the case of ASCII letters in the data. */
  predicate MatchesAt(data: bytes, pattern: bytes, i: nat) {
    && i + |pattern| <= |data|
    && forall k :: 0 <= k < |pattern| ==> Fold(data[i + k]) == pattern[k]
  }

  ghost predicate ContainsFold(data: bytes, pattern: bytes) {
    exists i: nat :: MatchesAt(data, pattern, i)
  }

  method ContainsASCIIFold(data: bytes, pattern: bytes) returns (found: bool)
    ensures found <==> ContainsFold(data, pattern)
  {
    var start := 0;
    while start + |pattern| <= |data|
      invariant forall i: nat :: i < start ==> !MatchesAt(data, pattern, i)
    {
      var matched, offset := true, 0;
      while offset < |pattern|
        invariant 0 <= offset <= |pattern| && matched
        invariant forall k :: 0 <= k < offset ==> Fold(data[start + k]) == pattern[k]
      {
        if Fold(data[start + offset]) != pattern[offset] {
          matched := false;
          break;
        }
        offset := offset + 1;
      }
      if matched {
        assert MatchesAt(data, pattern, start);
        return true;
      }
      assert !MatchesAt(data, pattern, start);
      start := start + 1;
    }
    found := false;
  }

  function Last(data: bytes, n: nat): (r: bytes)
    ensures |r| == Min(|data|, n)
  {
    data[|data| - Min(|data|, n)..]
  }

  function First(data: bytes, n: nat): (r: bytes)
    ensures |r| == Min(|data|, n)
  {
    data[..Min(|data|, n)]
  }

  lemma ShiftMatch(data: bytes, whole: bytes, pattern: bytes, off: nat, i: nat)
    requires off + |data| <= |whole| && whole[off..off + |data|] == data && i + |pattern| <= |data|
    ensures MatchesAt(data, pattern, i) <==> MatchesAt(whole, pattern, off + i)
  {
    assert forall k :: 0 <= k < |data| ==> whole[off + k] == data[k];
    if MatchesAt(data, pattern, i) {
      forall k | 0 <= k < |pattern| ensures Fold(whole[off + i + k]) == pattern[k] {
        assert whole[off + (i + k)] == data[i + k];
      }
    }
    if MatchesAt(whole, pattern, off + i) {
      forall k | 0 <= k < |pattern| ensures Fold(data[i + k]) == pattern[k] {
        assert whole[off + i + k] == data[i + k];
      }
    }
  }

  /** Whatever part of a text contains the pattern, the text does. */
  lemma PartContains(part: bytes, whole: bytes, pattern: bytes, off: nat)
    requires off + |part| <= |whole| && whole[off..off + |part|] == part && ContainsFold(part, pattern)
    ensures ContainsFold(whole, pattern)
  {
    var i: nat :| MatchesAt(part, pattern, i);
    ShiftMatch(part, whole, pattern, off, i);
  }

  lemma PartFound(part: bytes, whole: bytes, pattern: bytes, off: nat, i: nat)
    requires off + |part| <= |whole| && whole[off..off + |part|] == part
    requires MatchesAt(whole, pattern, i) && off <= i && i + |pattern| <= off + |part|
    ensures ContainsFold(part, pattern)
  {
    ShiftMatch(part, whole, pattern, off, i - off);
    assert MatchesAt(part, pattern, i - off);
  }

  /** The bytes around the cut between two writes that an occurrence across it can touch. */
  function Window(a: bytes, b: bytes, n: nat): bytes {
    Last(a, n) + First(b, n)
  }

  lemma WindowInside(a: bytes, b: bytes, n: nat)
    ensures var off, window := |a| - |Last(a, n)|, Window(a, b, n);
            off + |window| <= |a + b| && (a + b)[off..off + |window|] == window
  {
    var off := |a| - |Last(a, n)|;
    assert (a + b)[off..|a|] == Last(a, n) && (a + b)[|a|..|a| + |First(b, n)|] == First(b, n);
  }

  lemma CutFound(a: bytes, b: bytes, pattern: bytes, i: nat)
    requires |pattern| > 0 && MatchesAt(a + b, pattern, i)
    ensures ContainsFold(a, pattern) || ContainsFold(Window(a, b, |pattern| - 1), pattern) || ContainsFold(b, pattern)
  {
    var whole := a + b;
    if i + |pattern| <= |a| {
      assert whole[0..0 + |a|] == a;
      PartFound(a, whole, pattern, 0, i);
    } else if i >= |a| {
      assert whole[|a|..|a| + |b|] == b;
      PartFound(b, whole, pattern, |a|, i);
    } else {
      WindowInside(a, b, |pattern| - 1);
      PartFound(Window(a, b, |pattern| - 1), whole, pattern, |a| - |Last(a, |pattern| - 1)|, i);
    }
  }

  /** An occurrence in a concatenation lies in one half or in the window around the cut. */
  lemma CutWindow(a: bytes, b: bytes, pattern: bytes)
    requires |pattern| > 0
    ensures ContainsFold(a + b, pattern) <==>
              ContainsFold(a, pattern) || ContainsFold(Window(a, b, |pattern| - 1), pattern) || ContainsFold(b, pattern)
  {
    var whole, window := a + b, Window(a, b, |pattern| - 1);
    if i: nat :| MatchesAt(whole, pattern, i) { CutFound(a, b, pattern, i); }
    assert whole[0..0 + |a|] == a && whole[|a|..|a| + |b|] == b;
    WindowInside(a, b, |pattern| - 1);
    if ContainsFold(a, pattern) { PartContains(a, whole, pattern, 0); }
    if ContainsFold(window, pattern) { PartContains(window, whole, pattern, |a| - |Last(a, |pattern| - 1)|); }
    if ContainsFold(b, pattern) { PartContains(b, whole, pattern, |a|); }
  }

  lemma LastOfLast(data: bytes, n: nat, m: nat)
    requires n <= m
    ensures Last(Last(data, m), n) == Last(data, n)
  {
  }

  lemma LastOfAppend(a: bytes, b: bytes, n: nat)
    ensures Last(a + b, n) == if |b| >= n then Last(b, n) else Last(a, n - |b|) + b
  {
  }

  ghost predicate MentionsRefusal(text: bytes) {
    ContainsFold(text, Ascii(HINT))
  }

  function HintWindow(a: bytes, b: bytes): bytes {
    Window(a, b, |HINT| - 1)
  }

  /** What the writes so far amount to. */
  datatype Summary = Summary(tail: bytes, truncated: bool, sawRefused: bool)

  /** The reference: the tail and the flag of the whole text; `truncated` by its exact meaning. */
  ghost function Summarize(writes: seq<bytes>): Summary {
    Summary(Last(Concat(writes), MAX_OUTPUT), Truncated(writes), MentionsRefusal(Concat(writes)))
  }

  /** One write filled the whole buffer by itself. */
  ghost predicate FilledAtOnce(writes: seq<bytes>) {
    exists i :: 0 <= i < |writes| && |writes[i]| == MAX_OUTPUT
  }

  /** Bytes were dropped, or one write filled the whole buffer by itself. */
  ghost predicate Truncated(writes: seq<bytes>) {
    |Concat(writes)| > MAX_OUTPUT || FilledAtOnce(writes)
  }

  lemma FilledStep(writes: seq<bytes>, p: bytes)
    ensures FilledAtOnce(writes + [p]) <==> FilledAtOnce(writes) || |p| == MAX_OUTPUT
  {
    var more := writes + [p];
    if i :| 0 <= i < |writes| && |writes[i]| == MAX_OUTPUT {
      assert |more[i]| == MAX_OUTPUT;
    }
    if |p| == MAX_OUTPUT {
      assert |more[|writes|]| == MAX_OUTPUT;
    }
    if i :| 0 <= i < |more| && |more[i]| == MAX_OUTPUT {
      assert i < |writes| ==> |writes[i]| == MAX_OUTPUT;
    }
  }

  lemma TruncatedStep(writes: seq<bytes>, p: bytes)
    ensures Truncated(writes + [p]) <==>
              || |p| >= MAX_OUTPUT
              || Truncated(writes)
              || |Last(Concat(writes), MAX_OUTPUT)| + |p| > MAX_OUTPUT
  {
    ConcatOne(writes, p);
    FilledStep(writes, p);
  }

  /** One write, given only what the buffer kept of the earlier ones. */
  ghost function Next(s: Summary, p: bytes): Summary {
    Summary(
      if |p| >= MAX_OUTPUT then Last(p, MAX_OUTPUT) else Last(s.tail, MAX_OUTPUT - |p|) + p,
      s.truncated || |p| >= MAX_OUTPUT || |s.tail| + |p| > MAX_OUTPUT,
      s.sawRefused || MentionsRefusal(HintWindow(s.tail, p)) || MentionsRefusal(p))
  }

  lemma NextTail(text: bytes, p: bytes)
    ensures Last(text + p, MAX_OUTPUT) ==
            if |p| >= MAX_OUTPUT then Last(p, MAX_OUTPUT) else Last(Last(text, MAX_OUTPUT), MAX_OUTPUT - |p|) + p
  {
    LastOfAppend(text, p, MAX_OUTPUT);
    if |p| < MAX_OUTPUT { LastOfLast(text, MAX_OUTPUT - |p|, MAX_OUTPUT); }
  }

  lemma NextRefusal(text: bytes, p: bytes)
    ensures MentionsRefusal(text + p) <==>
              MentionsRefusal(text) || MentionsRefusal(HintWindow(Last(text, MAX_OUTPUT), p)) || MentionsRefusal(p)
  {
    CutWindow(text, p, Ascii(HINT));
    LastOfLast(text, |HINT| - 1, MAX_OUTPUT);
  }

  /** The kept tail is enough: updating the summary is summarising the longer text. */
  lemma NextSummarizes(writes: seq<bytes>, p: bytes)
    ensures Summarize(writes + [p]) == Next(Summarize(writes), p)
  {
    var text := Concat(writes);
    ConcatOne(writes, p);
    TruncatedStep(writes, p);
    NextTail(text, p);
    NextRefusal(text, p);
  }

  lemma NothingMentioned()
    ensures !MentionsRefusal([])
  {
    assert |Ascii(HINT)| > 0;
  }

  class BoundedTailBuffer {
    var data: bytes
    var truncated: bool
    var sawConnectionRefused: bool
    ghost var writes: seq<bytes>

    /** The fields are the summary of everything written. */
    ghost predicate Valid()
      reads this
    {
      Summary(data, truncated, sawConnectionRefused) == Summarize(writes)
    }

    constructor ()
      ensures Valid() && writes == []
    {
      data, truncated, sawConnectionRefused, writes := [], false, false, [];
      new;
      NothingMentioned();
    }

    /** Shifts the kept bytes and appends the new ones; an over-long write replaces them all. */
    method KeepTail(p: bytes)
      requires |data| <= MAX_OUTPUT
      modifies this`data, this`truncated
      ensures data == if |p| >= MAX_OUTPUT then Last(p, MAX_OUTPUT) else Last(old(data), MAX_OUTPUT - |p|) + p
      ensures truncated == (old(truncated) || |p| >= MAX_OUTPUT || |old(data)| + |p| > MAX_OUTPUT)
    {
      if |p| >= MAX_OUTPUT {
        data := p[|p| - MAX_OUTPUT..];
        truncated := true;
        return;
      }
      var discard := |data| + |p| - MAX_OUTPUT;
      if discard > 0 {
        data := data[discard..];
        truncated := true;
      }
      data := data + p;
    }

    /** Looks at the new bytes and at the window around the cut. */
    method Detect(p: bytes)
      modifies this`sawConnectionRefused
      ensures sawConnectionRefused == (old(sawConnectionRefused) || MentionsRefusal(HintWindow(data, p))
          || MentionsRefusal(p))
    {
      if !sawConnectionRefused {
        var boundary := HintWindow(data, p);
        var atCut := ContainsASCIIFold(boundary, Ascii(HINT));
        var inside := ContainsASCIIFold(p, Ascii(HINT));
        sawConnectionRefused := atCut || inside;
      }
    }

    method Write(p: bytes) returns (written: nat)
      requires Valid()
      modifies this
      ensures Valid() && writes == old(writes) + [p] && written == |p|
    {
      written := |p|;
      ghost var before := Summary(data, truncated, sawConnectionRefused);
      NextSummarizes(writes, p);
      Detect(p);
      KeepTail(p);
      assert Summary(data, truncated, sawConnectionRefused) == Next(before, p);
      writes := writes + [p];
    }

    /** The text shown to the user: the retained tail, marked when the buffer was cut. */
    method Text() returns (text: bytes)
      requires Valid()
      ensures text == (if Truncated(writes) then Ascii(TRUNCATED_MARKER) else []) + Last(Concat(writes), MAX_OUTPUT)
    {
      if truncated {
        return Ascii(TRUNCATED_MARKER) + data;
      }
      text := data;
    }
  }
}
