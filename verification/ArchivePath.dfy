/**
 Member paths and link targets of a source archive: lexical cleaning of
 slash-separated names, the path check and the link-target check. A cleaned
 path is characterised by its components.
 */
module ArchivePath {
  import opened Options

  // ---------- text ----------

  predicate IsSpace(c: char) {
    || '\t' <= c <= '\r' || c == ' ' || c == '\U{0085}' || c == '\U{00A0}' || c == '\U{1680}'
    || '\U{2000}' <= c <= '\U{200A}' || c == '\U{2028}' || c == '\U{2029}' || c == '\U{202F}'
    || c == '\U{205F}' || c == '\U{3000}'
  }

  function TrimLeft(s: string): string {
    if s != "" && IsSpace(s[0]) then TrimLeft(s[1..]) else s
  }

  function TrimRight(s: string): string {
    if s != "" && IsSpace(s[|s| - 1]) then TrimRight(s[..|s| - 1]) else s
  }

  function TrimSpace(s: string): string {
    TrimRight(TrimLeft(s))
  }

  ghost predicate AllSpace(s: string) {
    forall i :: 0 <= i < |s| ==> IsSpace(s[i])
  }

  lemma {:induction false} TrimLeftMeans(s: string) returns (before: string)
    ensures s == before + TrimLeft(s) && AllSpace(before)
    ensures TrimLeft(s) != "" ==> !IsSpace(TrimLeft(s)[0])
  {
    before := "";
    if s != "" && IsSpace(s[0]) {
      before := TrimLeftMeans(s[1..]);
      before := [s[0]] + before;
    }
  }

  lemma {:induction false} TrimRightMeans(s: string) returns (after: string)
    ensures s == TrimRight(s) + after && AllSpace(after)
    ensures TrimRight(s) != "" ==> !IsSpace(TrimRight(s)[|TrimRight(s)| - 1])
  {
    after := "";
    if s != "" && IsSpace(s[|s| - 1]) {
      after := TrimRightMeans(s[..|s| - 1]);
      after := after + [s[|s| - 1]];
    }
  }

  /** Trimming takes away white space at both ends, all of it, and nothing else. */
  lemma TrimMeans(s: string) returns (before: string, after: string)
    ensures s == before + TrimSpace(s) + after && AllSpace(before) && AllSpace(after)
    ensures var t := TrimSpace(s); t != "" ==> !IsSpace(t[0]) && !IsSpace(t[|t| - 1])
  {
    before := TrimLeftMeans(s);
    after := TrimRightMeans(TrimLeft(s));
    assert TrimSpace(s) != "" ==> TrimSpace(s)[0] == TrimLeft(s)[0];
  }

  function Slashed(s: string): (r: string)
    ensures |r| == |s|
  {
    seq(|s|, i requires 0 <= i < |s| => if s[i] == '\\' then '/' else s[i])
  }

  /** Trimmed, with backslashes read as slashes. */
  function Normalize(s: string): string {
    Slashed(TrimSpace(s))
  }

  predicate NoSlash(s: string) {
    forall i :: 0 <= i < |s| ==> s[i] != '/'
  }

  ghost predicate NoSlashes(parts: seq<string>) {
    forall i :: 0 <= i < |parts| ==> NoSlash(parts[i])
  }

  /** What one more character in front does to the parts. */
  function FirstChar(c: char, rest: seq<string>): seq<string>
    requires rest != []
  {
    if c == '/' then [""] + rest else [[c] + rest[0]] + rest[1..]
  }

  /** The parts between slashes; never empty, and empty text has one empty part. */
  function Split(s: string): (parts: seq<string>)
    ensures parts != [] && NoSlashes(parts)
  {
    if s == "" then [""] else FirstChar(s[0], Split(s[1..]))
  }

  function Join(parts: seq<string>): string {
    if parts == [] then "" else if |parts| == 1 then parts[0] else parts[0] + "/" + Join(parts[1..])
  }

  lemma {:induction false} SplitNoSlash(a: string)
    requires NoSlash(a)
    ensures Split(a) == [a]
  {
    if a != "" {
      SplitNoSlash(a[1..]);
      assert a == [a[0]] + a[1..];
    }
  }

  lemma FirstCharAppend(c: char, r: seq<string>, q: seq<string>)
    requires r != []
    ensures FirstChar(c, r + q) == FirstChar(c, r) + q
  {
    assert (r + q)[1..] == r[1..] + q;
  }

  lemma {:induction false} SplitConcat(a: string, b: string)
    ensures Split(a + "/" + b) == Split(a) + Split(b)
  {
    if a == "" {
      assert a + "/" + b == "/" + b;
      assert ("/" + b)[1..] == b;
    } else {
      SplitConcat(a[1..], b);
      FirstCharAppend(a[0], Split(a[1..]), Split(b));
      var s := a + "/" + b;
      assert s != "" && s[0] == a[0] && s[1..] == a[1..] + "/" + b;
    }
  }

  /** Splitting undoes joining. */
  lemma {:induction false} SplitJoin(parts: seq<string>)
    requires parts != [] && NoSlashes(parts)
    ensures Split(Join(parts)) == parts
  {
    SplitNoSlash(parts[0]);
    if |parts| > 1 {
      SplitConcat(parts[0], Join(parts[1..]));
      SplitJoin(parts[1..]);
    }
  }

  // ---------- lexical cleaning ----------

  /** A component that names an entry: not empty, not a dot or dot-dot, without a slash. */
  predicate Plain(c: string) {
    c != "" && c != "." && c != ".." && NoSlash(c)
  }

  /** What one part does to the components so far. */
  function Push(stack: seq<string>, c: string): seq<string> {
    if c == "" || c == "." then stack
    else if c == ".." && stack != [] && stack[|stack| - 1] != ".." then stack[..|stack| - 1]
    else stack + [c]
  }

  /** All parts in turn. */
  function Reduce(stack: seq<string>, parts: seq<string>): seq<string> {
    if parts == [] then stack else Push(Reduce(stack, parts[..|parts| - 1]), parts[|parts| - 1])
  }

  function Show(parts: seq<string>): string {
    if parts == [] then "." else Join(parts)
  }

  /** The library's lexical clean, for a name that does not begin with a slash. */
  function Clean(s: string): string {
    Show(Reduce([], Split(s)))
  }

  /** Everything before the last slash, cleaned. */
  function Dir(s: string): string {
    var parts := Split(s);
    Show(Reduce([], parts[..|parts| - 1]))
  }

  /** The library's join of two names: cleaned concatenation with a slash. */
  function PathJoin(a: string, b: string): string {
    Clean(a + "/" + b)
  }

  /** Dot-dots only in front, plain names after: the shape of every cleaned path. */
  ghost predicate Normal(parts: seq<string>) {
    && (forall i :: 0 <= i < |parts| ==> parts[i] == ".." || Plain(parts[i]))
    && (forall i, j :: 0 <= i < j < |parts| && parts[j] == ".." ==> parts[i] == "..")
  }

  lemma {:induction false} ReduceNormal(stack: seq<string>, parts: seq<string>)
    requires Normal(stack) && NoSlashes(parts)
    ensures Normal(Reduce(stack, parts))
  {
    if parts != [] {
      ReduceNormal(stack, parts[..|parts| - 1]);
    }
  }

  lemma {:induction false} ReduceAppend(stack: seq<string>, a: seq<string>, b: seq<string>)
    ensures Reduce(stack, a + b) == Reduce(Reduce(stack, a), b)
    decreases |b|
  {
    if b == [] {
      assert a + b == a;
    } else {
      var init := b[..|b| - 1];
      assert (a + b)[..|a + b| - 1] == a + init;
      ReduceAppend(stack, a, init);
    }
  }

  /** A normal path is its own clean form. */
  lemma {:induction false} ReduceFixed(parts: seq<string>)
    requires Normal(parts)
    ensures Reduce([], parts) == parts
  {
    if parts != [] {
      var init := parts[..|parts| - 1];
      ReduceFixed(init);
      assert parts == init + [parts[|parts| - 1]];
    }
  }

  /** Cleaning a suffix first changes nothing: dir/clean(t) cleans to the same path as dir/t. */
  lemma {:induction false} CleanSuffixFirst(dir: seq<string>, t: seq<string>)
    requires Normal(dir) && NoSlashes(t)
    ensures Reduce(dir, Reduce([], t)) == Reduce(dir, t)
    decreases |t|
  {
    if t != [] {
      var init, c := t[..|t| - 1], t[|t| - 1];
      var r := Reduce([], init);
      CleanSuffixFirst(dir, init);
      ReduceNormal([], init);
      if c == ".." && r != [] && r[|r| - 1] != ".." {
        ReduceNormal(dir, r[..|r| - 1]);
        assert Reduce(dir, r) == Reduce(dir, r[..|r| - 1]) + [r[|r| - 1]];
        assert Push(Reduce(dir, r), c) == Reduce(dir, r[..|r| - 1]);
      } else if c != "" && c != "." {
        assert (r + [c])[..|r|] == r;
      }
    }
  }

  lemma ShowSplits(parts: seq<string>)
    requires Normal(parts)
    ensures Reduce([], Split(Show(parts))) == parts
    ensures parts != [] ==> Split(Show(parts)) == parts
  {
    if parts == [] {
      SplitNoSlash(".");
      assert Reduce([], ["."][..0]) == [];
    } else {
      SplitJoin(parts);
      ReduceFixed(parts);
    }
  }

  lemma CleanIdempotent(s: string)
    ensures Clean(Clean(s)) == Clean(s)
  {
    ReduceNormal([], Split(s));
    ShowSplits(Reduce([], Split(s)));
  }

  // ---------- the member path check ----------

  function ValidateBuildArchivePath(name: string): Result<string, string> {
    var normalized := Normalize(name);
    if normalized == "" then Ok("")
    else if normalized[0] == '/' then Err("absolute path")
    else
      var cleaned := Clean(normalized);
      if cleaned == "." then Ok("")
      else if cleaned == ".." || "../" <= cleaned then Err("invalid path")
      else Ok(cleaned)
  }

  /** How far the parts lead down from where they start, counting a dot-dot as one up. */
  function Depth(parts: seq<string>): int {
    if parts == [] then 0
    else
      var c := parts[|parts| - 1];
      Depth(parts[..|parts| - 1]) + if c == "" || c == "." then 0 else if c == ".." then -1 else 1
  }

  /** Some prefix of the parts leads above the start. */
  ghost predicate Climbs(parts: seq<string>) {
    exists k :: 0 <= k <= |parts| && Depth(parts[..k]) < 0
  }

  ghost predicate AllPlain(parts: seq<string>) {
    forall i :: 0 <= i < |parts| ==> Plain(parts[i])
  }

  lemma ClimbsStep(parts: seq<string>)
    requires parts != []
    ensures Climbs(parts) <==> Climbs(parts[..|parts| - 1]) || Depth(parts) < 0
  {
    var init := parts[..|parts| - 1];
    assert parts[..|parts|] == parts;
    if k :| 0 <= k <= |init| && Depth(init[..k]) < 0 {
      assert parts[..k] == init[..k];
    }
    if k :| 0 <= k <= |parts| && Depth(parts[..k]) < 0 {
      assert k < |parts| ==> parts[..k] == init[..k];
    }
  }

  /** Climbing above the start is exactly what leaves a leading dot-dot; otherwise only names remain. */
  lemma {:induction false} LeadingUpIffClimbs(parts: seq<string>)
    requires NoSlashes(parts)
    ensures var r := Reduce([], parts);
            && (Climbs(parts) <==> r != [] && r[0] == "..")
            && (!Climbs(parts) ==> AllPlain(r) && Depth(parts) == |r|)
  {
    if parts == [] {
      assert Depth(parts[..0]) == 0;
    } else {
      LeadingUpIffClimbs(parts[..|parts| - 1]);
      ClimbsStep(parts);
    }
  }

  /** The textual root test is a test of the first component. */
  lemma RootTest(parts: seq<string>, root: string)
    requires parts != [] && NoSlashes(parts) && NoSlash(root)
    ensures Join(parts) == root || root + "/" <= Join(parts) <==> parts[0] == root
  {
    var s := Join(parts);
    if parts[0] == root {
      if |parts| > 1 {
        assert s == root + "/" + Join(parts[1..]);
      }
    } else if s == root {
      SplitNoSlash(root);
      SplitJoin(parts);
      assert false;
    } else if root + "/" <= s {
      assert s == root + "/" + s[|root| + 1..];
      SplitConcat(root, s[|root| + 1..]);
      SplitNoSlash(root);
      SplitJoin(parts);
      assert false;
    }
  }

  /** The text of a normal path tells its components apart. */
  lemma ShowTells(r: seq<string>, root: string)
    requires Normal(r) && NoSlash(root) && root != "."
    ensures Show(r) == "." <==> r == []
    ensures r != [] ==> Split(Show(r)) == r && Show(r) == Join(r)
    ensures Show(r) == root || root + "/" <= Show(r) <==> r != [] && r[0] == root
  {
    if r == [] {
      if root + "/" <= "." { assert (root + "/")[|root|] == '/'; }
    } else {
      SplitJoin(r);
      RootTest(r, root);
      SplitNoSlash(".");
    }
  }

  /** A name is accepted exactly when it is relative and never climbs; what is kept is a list of plain names. */
  lemma PathAccepted(name: string)
    ensures var n := Normalize(name);
            ValidateBuildArchivePath(name).Ok? <==> n == "" || (n[0] != '/' && !Climbs(Split(n)))
    ensures ValidateBuildArchivePath(name).Ok? ==>
              var cleaned := ValidateBuildArchivePath(name).value;
              cleaned != "" ==>
                AllPlain(Split(cleaned)) && Join(Split(cleaned)) == cleaned
                    && Split(cleaned) == Reduce([], Split(Normalize(name)))
  {
    var n := Normalize(name);
    if n != "" && n[0] != '/' {
      var r := Reduce([], Split(n));
      LeadingUpIffClimbs(Split(n));
      ReduceNormal([], Split(n));
      ShowTells(r, "..");
      assert ".." + "/" == "../";
    }
  }

  predicate NoBackslash(s: string) {
    forall i :: 0 <= i < |s| ==> s[i] != '\\'
  }

  ghost predicate NoBackslashes(parts: seq<string>) {
    forall i :: 0 <= i < |parts| ==> NoBackslash(parts[i])
  }

  lemma {:induction false} SplitNoBackslash(s: string)
    requires NoBackslash(s)
    ensures NoBackslashes(Split(s))
  {
    if s != "" {
      SplitNoBackslash(s[1..]);
      var rest := Split(s[1..]);
      assert NoBackslash(rest[0]);
      assert NoBackslash([s[0]] + rest[0]);
    }
  }

  lemma {:induction false} ReduceNoBackslash(parts: seq<string>)
    requires NoBackslashes(parts)
    ensures NoBackslashes(Reduce([], parts))
  {
    if parts != [] {
      ReduceNoBackslash(parts[..|parts| - 1]);
    }
  }

  lemma {:induction false} JoinNoBackslash(parts: seq<string>)
    requires NoBackslashes(parts)
    ensures NoBackslash(Join(parts))
  {
    if |parts| > 1 {
      JoinNoBackslash(parts[1..]);
      assert NoBackslash(parts[0]);
    } else if |parts| == 1 {
      assert NoBackslash(parts[0]);
    }
  }

  /** An accepted path contains no backslash, so reading it again changes nothing. */
  lemma AcceptedHasNoBackslash(name: string)
    requires ValidateBuildArchivePath(name).Ok?
    ensures Slashed(ValidateBuildArchivePath(name).value) == ValidateBuildArchivePath(name).value
  {
    var n := Normalize(name);
    SplitNoBackslash(n);
    ReduceNoBackslash(Split(n));
    JoinNoBackslash(Reduce([], Split(n)));
  }

  // ---------- the link target check ----------

  function ResolveArchiveSymlinkTarget(name: string, target: string): Result<string, string> {
    var normalized := Normalize(target);
    if normalized == "" then Err("empty target")
    else if normalized[0] == '/' then Err("absolute target")
    else
      var cleanedName := Clean(Slashed(name));
      var buildRoot := Split(cleanedName)[0];
      var resolved := Clean(PathJoin(Dir(cleanedName), normalized));
      if resolved != buildRoot && !(buildRoot + "/" <= resolved) then Err("outside the build context")
      else Ok(Clean(normalized))
  }

  function Parent(p: seq<string>): seq<string>
    requires p != []
  {
    p[..|p| - 1]
  }

  /** The components a stored target sends the reader through; a lone dot sends it nowhere. */
  function TargetParts(stored: string): seq<string> {
    if stored == "." then [] else Split(stored)
  }

  /** A link at `p` whose stored target, read from the directory of `p`, stays under the first component of `p`. */
  ghost predicate ValidLink(p: seq<string>, parts: seq<string>) {
    && p != [] && AllPlain(p) && Normal(parts)
    && var r := Reduce(Parent(p), parts); r != [] && r[0] == p[0]
  }

  /** The directory a path is in; the start is in itself. */
  function Above(p: seq<string>): seq<string> {
    if p == [] then [] else Parent(p)
  }

  lemma DirParts(p: seq<string>)
    requires Normal(p)
    ensures Dir(Show(p)) == Show(Above(p))
  {
    ShowSplits(p);
    ReduceFixed(Above(p));
    if p == [] { SplitNoSlash("."); }
  }

  lemma ResolvedParts(p: seq<string>, normalized: string)
    requires Normal(p)
    ensures Clean(PathJoin(Dir(Show(p)), normalized)) == Show(Reduce(Above(p), Split(normalized)))
  {
    var dir := Above(p);
    DirParts(p);
    ShowSplits(dir);
    SplitConcat(Show(dir), normalized);
    ReduceAppend([], Split(Show(dir)), Split(normalized));
    CleanIdempotent(Show(dir) + "/" + normalized);
  }

  lemma StoredTarget(dir: seq<string>, n: string)
    requires Normal(dir)
    ensures Normal(TargetParts(Clean(n))) && Clean(Clean(n)) == Clean(n)
    ensures Reduce(dir, TargetParts(Clean(n))) == Reduce(dir, Split(n))
    ensures Reduce(dir, Split(Clean(n))) == Reduce(dir, Split(n))
  {
    var s := Reduce([], Split(n));
    ReduceNormal([], Split(n));
    CleanSuffixFirst(dir, Split(n));
    CleanIdempotent(n);
    ShowTells(s, "..");
    if s == [] {
      SplitNoSlash(".");
      ReduceOne(dir, ".");
    }
  }

  /** The components of the name a target is checked against. */
  function NameParts(name: string): seq<string> {
    Reduce([], Split(Slashed(name)))
  }

  /** The target leads, from the directory of `p`, to a path under the first component of `p`. */
  predicate LeadsUnder(p: seq<string>, normalized: string) {
    var r := Reduce(Above(p), Split(normalized));
    if p == [] then r == [] else r != [] && r[0] == p[0]
  }

  lemma UnderTest(p: seq<string>, r: seq<string>)
    requires Normal(p) && Normal(r)
    ensures var root, text := Split(Show(p))[0], Show(r);
            text == root || root + "/" <= text <==> if p == [] then r == [] else r != [] && r[0] == p[0]
  {
    ShowSplits(p);
    if p != [] {
      ShowTells(r, p[0]);
    } else {
      SplitNoSlash(".");
      ShowTells(r, "..");
      if r != [] { RootTest(r, "."); }
    }
  }

  /**
   For any relative name, backslashes and all: a target is accepted exactly when it is a non-empty relative name that
   leads, from the directory of the link, to a path under the link's own top level. What is stored is then clean, and
   a valid link wherever the name is a plain path.
   */
  lemma TargetAccepted(name: string, target: string)
    requires Slashed(name) == "" || Slashed(name)[0] != '/'
    ensures var p, n, result := NameParts(name), Normalize(target), ResolveArchiveSymlinkTarget(name, target);
            && (result.Ok? <==> n != "" && n[0] != '/' && LeadsUnder(p, n))
            && (result.Ok? ==> result.value == Clean(n) && Clean(result.value) == result.value)
            && (result.Ok? && p != [] && AllPlain(p) ==> ValidLink(p, TargetParts(result.value)))
  {
    var n, p := Normalize(target), NameParts(name);
    ReduceNormal([], Split(Slashed(name)));
    if n != "" && n[0] != '/' {
      ResolvedParts(p, n);
      ReduceNormal(Above(p), Split(n));
      UnderTest(p, Reduce(Above(p), Split(n)));
      StoredTarget(Above(p), n);
    }
  }

  /** The name of a plain path without backslashes has that path as its components. */
  lemma PlainName(p: seq<string>)
    requires p != [] && AllPlain(p) && Slashed(Join(p)) == Join(p)
    ensures NameParts(Join(p)) == p && Join(p) != "" && Join(p)[0] != '/'
  {
    SplitJoin(p);
    ReduceFixed(p);
    assert Plain(p[0]) && Join(p)[0] == p[0][0];
  }

  // ---------- writing an archive and reading it back ----------

  function Weight(parts: seq<string>): nat {
    if parts == [] then 0 else Weight(parts[..|parts| - 1]) + |parts[|parts| - 1]| + 1
  }

  lemma {:induction false} WeightHead(parts: seq<string>)
    requires parts != []
    ensures Weight(parts) == |parts[0]| + 1 + Weight(parts[1..])
  {
    if |parts| > 1 {
      WeightHead(parts[..|parts| - 1]);
      assert parts[..|parts| - 1][1..] == parts[1..][..|parts| - 2];
    }
  }

  lemma {:induction false} JoinLength(parts: seq<string>)
    requires parts != []
    ensures |Join(parts)| + 1 == Weight(parts)
  {
    WeightHead(parts);
    if |parts| > 1 {
      JoinLength(parts[1..]);
    }
  }

  lemma {:induction false} SplitWeight(s: string)
    ensures Weight(Split(s)) == |s| + 1
  {
    if s != "" {
      SplitWeight(s[1..]);
      WeightHead(Split(s[1..]));
      WeightHead(Split(s));
      if s[0] == '/' {
        assert Split(s)[1..] == Split(s[1..]);
      } else {
        assert Split(s)[1..] == Split(s[1..])[1..];
      }
    }
  }

  lemma {:induction false} ReduceWeight(parts: seq<string>)
    ensures Weight(Reduce([], parts)) <= Weight(parts)
  {
    if parts != [] {
      var init, c := parts[..|parts| - 1], parts[|parts| - 1];
      ReduceWeight(init);
      var r := Reduce([], init);
      assert (r + [c])[..|r|] == r;
    }
  }

  /** Cleaning never makes a name longer. */
  lemma CleanIsNoLonger(s: string)
    requires s != ""
    ensures |Clean(s)| <= |s|
  {
    var r := Reduce([], Split(s));
    SplitWeight(s);
    ReduceWeight(Split(s));
    if r != [] {
      JoinLength(r);
    }
  }

  lemma {:induction false} TrimLeftShorter(s: string)
    ensures |TrimLeft(s)| <= |s| && (|TrimLeft(s)| == |s| ==> TrimLeft(s) == s)
  {
    if s != "" && IsSpace(s[0]) { TrimLeftShorter(s[1..]); }
  }

  lemma {:induction false} TrimRightShorter(s: string)
    ensures |TrimRight(s)| <= |s| && (|TrimRight(s)| == |s| ==> TrimRight(s) == s)
  {
    if s != "" && IsSpace(s[|s| - 1]) { TrimRightShorter(s[..|s| - 1]); }
  }

  lemma TrimSpaceShorter(s: string)
    ensures |TrimSpace(s)| <= |s| && (|TrimSpace(s)| == |s| ==> TrimSpace(s) == s)
  {
    TrimLeftShorter(s);
    TrimRightShorter(TrimLeft(s));
  }

  /**
   How the extractor reads a stored link: its name is trimmed and cleaned first; a member without a name is skipped.
   */
  function ReadLink(name: string, stored: string): Result<string, string> {
    var cleaned := ValidateBuildArchivePath(name);
    if cleaned.Err? then Err(cleaned.error)
    else if cleaned.value == "" then Err("no member path")
    else ResolveArchiveSymlinkTarget(cleaned.value, stored)
  }

  /** An accepted, non-empty member name as the extractor sees it. */
  lemma ReaderName(name: string)
    requires ValidateBuildArchivePath(name).Ok? && ValidateBuildArchivePath(name).value != ""
    ensures var cleaned := ValidateBuildArchivePath(name).value;
            NameParts(cleaned) == Split(cleaned) && AllPlain(Split(cleaned)) && Slashed(cleaned)[0] != '/'
  {
    var cleaned := ValidateBuildArchivePath(name).value;
    PathAccepted(name);
    AcceptedHasNoBackslash(name);
    PlainName(Split(cleaned));
  }

  lemma StoredIsSlashed(n: string)
    requires NoBackslash(n)
    ensures Slashed(Clean(n)) == Clean(n)
  {
    SplitNoBackslash(n);
    ReduceNoBackslash(Split(n));
    JoinNoBackslash(Reduce([], Split(n)));
  }

  /**
   The writer of an archive stores the checked target of a link; the extractor checks what it reads again, against the
   trimmed name. It stores the same text exactly when it extracts the member at all, the text has no white space at
   its ends, and it leads under the top level of the trimmed name too.
   */
  lemma StoredTargetReadBack(name: string, target: string)
    requires ResolveArchiveSymlinkTarget(name, target).Ok?
    ensures var s, cleaned := ResolveArchiveSymlinkTarget(name, target).value, ValidateBuildArchivePath(name);
            ReadLink(name, s) == Ok(s) <==>
            cleaned.Ok? && cleaned.value != "" && TrimSpace(s) == s && LeadsUnder(Split(cleaned.value), s)
  {
    var n := Normalize(target);
    var s, cleaned := Clean(n), ValidateBuildArchivePath(name);
    TrimSpaceShorter(s);
    StoredIsSlashed(n);
    SameParts(n);
    if cleaned.Ok? && cleaned.value != "" {
      ReaderName(name);
      TargetAccepted(cleaned.value, s);
      CleanIdempotent(n);
      if TrimSpace(s) != s && Normalize(s) != "" { CleanIsNoLonger(Normalize(s)); }
    }
  }

  /** For a name without white space at its ends only the text decides. */
  lemma TrimmedNameReadBack(name: string, target: string)
    requires TrimSpace(name) == name && Slashed(name) != "" && Slashed(name)[0] != '/'
    requires ResolveArchiveSymlinkTarget(name, target).Ok?
    requires ValidateBuildArchivePath(name).Ok? && ValidateBuildArchivePath(name).value != ""
    ensures var s := ResolveArchiveSymlinkTarget(name, target).value;
            ReadLink(name, s) == Ok(s) <==> TrimSpace(s) == s
  {
    StoredTargetReadBack(name, target);
    ReaderName(name);
    PathAccepted(name);
    TargetAccepted(name, target);
    StoredTarget(Above(NameParts(name)), Normalize(target));
  }

  /** A cleaned relative name splits into its own components, and does not begin with a slash. */
  lemma SameParts(n: string)
    requires n != "" && n[0] != '/'
    ensures Reduce([], Split(Clean(n))) == Reduce([], Split(n))
    ensures Clean(n) != "" && Clean(n)[0] != '/'
  {
    var r := Reduce([], Split(n));
    ReduceNormal([], Split(n));
    ShowSplits(r);
    if r != [] {
      assert r[0] == ".." || Plain(r[0]);
      assert Join(r)[0] == r[0][0];
    }
  }

  lemma ExampleWritten()
    ensures Normalize("./ a") == "./ a" && Split("./ a") == [".", " a"]
  {
    assert TrimLeft("./ a") == "./ a" && TrimRight("./ a") == "./ a";
    SplitNoSlash(".");
    SplitNoSlash(" a");
    SplitConcat(".", " a");
    assert "." + "/" + " a" == "./ a";
  }

  lemma ExampleRead()
    ensures Normalize(" a") == "a" && Split("a") == ["a"]
  {
    assert " a"[1..] == "a";
    assert TrimLeft(" a") == "a" && TrimRight("a") == "a";
    SplitNoSlash("a");
  }

  lemma ResolvedWhen(p: seq<string>, target: string, s: seq<string>)
    requires p != [] && AllPlain(p) && Slashed(Join(p)) == Join(p)
    requires Normalize(target) != "" && Normalize(target)[0] != '/'
    requires LeadsUnder(p, Normalize(target)) && Reduce([], Split(Normalize(target))) == s
    ensures ResolveArchiveSymlinkTarget(Join(p), target) == Ok(Show(s))
  {
    PlainName(p);
    TargetAccepted(Join(p), target);
  }

  lemma ExamplePath(p: seq<string>)
    requires p == ["img", "l"]
    ensures AllPlain(p) && Parent(p) == ["img"] && Slashed(Join(p)) == Join(p)
  {
    assert Join(p[1..]) == "l";
    assert Join(p) == "img" + "/" + "l";
    assert |"img"| == 3 && |"l"| == 1;
  }

  /** A link to "./ a" is stored as " a". */
  lemma WrittenTargetExample(p: seq<string>)
    requires p == ["img", "l"]
    ensures ResolveArchiveSymlinkTarget(Join(p), "./ a") == Ok(" a")
  {
    ExamplePath(p);
    ExampleWritten();
    ReduceTwo([], ".", " a");
    ReduceTwo(["img"], ".", " a");
    ResolvedWhen(p, "./ a", [" a"]);
  }

  /** The stored " a" is extracted as "a". */
  lemma ReadTargetExample(p: seq<string>)
    requires p == ["img", "l"]
    ensures ResolveArchiveSymlinkTarget(Join(p), " a") == Ok("a")
  {
    ExamplePath(p);
    ExampleRead();
    ReduceOne([], "a");
    ReduceOne(["img"], "a");
    ResolvedWhen(p, " a", ["a"]);
  }

  lemma ReduceOne(stack: seq<string>, c: string)
    ensures Reduce(stack, [c]) == Push(stack, c)
  {
    assert [c][..0] == [];
  }

  lemma ReduceTwo(stack: seq<string>, c: string, d: string)
    ensures Reduce(stack, [c, d]) == Push(Push(stack, c), d)
  {
    assert [c, d][..1] == [c];
    ReduceOne(stack, c);
  }

  lemma ReduceFour(stack: seq<string>, parts: seq<string>)
    requires |parts| == 4
    ensures Reduce(stack, parts) == Push(Push(Push(Push(stack, parts[0]), parts[1]), parts[2]), parts[3])
  {
    assert parts == parts[..2] + parts[2..] && parts[..2] == [parts[0], parts[1]] && parts[2..] == [parts[2], parts[3]];
    ReduceAppend(stack, parts[..2], parts[2..]);
    ReduceTwo(stack, parts[0], parts[1]);
    ReduceTwo(Reduce(stack, parts[..2]), parts[2], parts[3]);
  }

  lemma JoinThree(a: string, b: string, c: string)
    ensures Join([a, b, c]) == a + "/" + b + "/" + c
  {
    assert [a, b, c][1..] == [b, c] && [b, c][1..] == [c];
    assert Join([b, c]) == b + "/" + c;
    assert a + "/" + (b + "/" + c) == a + "/" + b + "/" + c;
  }

  /**
   Up two directories and down into `top`: under the top level of a link `p` two directories deep only if it is `top`.
   */
  lemma UpAndDown(p: seq<string>, target: string, top: string, x: string)
    requires |p| == 3 && AllPlain(p) && Plain(top) && Plain(x) && Split(target) == ["..", "..", top, x]
    ensures LeadsUnder(p, target) <==> p[0] == top
  {
    assert Above(p) == [p[0], p[1]];
    assert Plain(p[0]) && Plain(p[1]);
    ReduceFour(Above(p), Split(target));
    assert [p[0], p[1]][..1] == [p[0]] && [p[0]][..0] == [];
    assert Reduce(Above(p), Split(target)) == [top, x];
  }

  lemma PlainExamples()
    ensures Plain(" img") && Plain("img") && Plain("d") && Plain("l") && Plain("x") && "img" != " img"
  {
    assert |" img"| == 4 && |"img"| == 3 && |"d"| == 1 && |"l"| == 1 && |"x"| == 1;
  }

  /** The name of the example as the writer takes it: a directory whose name begins with a space. */
  lemma SpacedName(name: string)
    requires name == " img/d/l"
    ensures NameParts(name) == [" img", "d", "l"] && name == Slashed(name)
  {
    var p := [" img", "d", "l"];
    PlainExamples();
    JoinThree(" img", "d", "l");
    assert " img" + "/" + "d" + "/" + "l" == name;
    assert Slashed(name) == name;
    PlainName(p);
  }

  /** The same name as the extractor takes it. */
  lemma TrimmedName(name: string)
    requires name == " img/d/l"
    ensures Normalize(name) == "img/d/l"
  {
    assert name[1..] == "img/d/l";
    assert TrimLeft(name) == TrimLeft("img/d/l") == "img/d/l" && TrimRight("img/d/l") == "img/d/l";
    assert Slashed("img/d/l") == "img/d/l";
  }

  lemma TrimmedParts(cleaned: string)
    requires cleaned == "img/d/l"
    ensures Split(cleaned) == ["img", "d", "l"] && Join(["img", "d", "l"]) == cleaned && Slashed(cleaned) == cleaned
  {
    PlainExamples();
    JoinThree("img", "d", "l");
    assert "img" + "/" + "d" + "/" + "l" == cleaned;
    SplitJoin(["img", "d", "l"]);
  }

  lemma TrimmedNameAccepted(name: string, cleaned: string, q: seq<string>)
    requires Normalize(name) == cleaned && Split(cleaned) == q && AllPlain(q) && Join(q) == cleaned
    ensures ValidateBuildArchivePath(name) == Ok(cleaned)
  {
    ReduceFixed(q);
    ShowTells(q, "..");
    assert ".." + "/" == "../";
    assert Plain(q[0]) && Join(q)[0] == q[0][0];
  }

  lemma SpacedTarget(target: string)
    requires target == "../../ img/x"
    ensures Split(target) == ["..", "..", " img", "x"] && Join(Split(target)) == target
  {
    var u := ["..", "..", " img", "x"];
    PlainExamples();
    JoinThree("..", " img", "x");
    assert u[1..] == ["..", " img", "x"];
    assert Join(u) == target;
    SplitJoin(u);
  }

  lemma SpacedTargetNormal(target: string)
    requires target == "../../ img/x"
    ensures TrimSpace(target) == target && Normalize(target) == target
  {
    assert TrimLeft(target) == target && TrimRight(target) == target;
    assert Slashed(target) == target;
  }

  /** A target stored as it is, without white space at its ends, that the extractor refuses: the name was trimmed. */
  lemma SpacedNameExample(name: string, target: string)
    requires name == " img/d/l" && target == "../../ img/x"
    ensures ResolveArchiveSymlinkTarget(name, target) == Ok(target) && TrimSpace(target) == target
    ensures ReadLink(name, target).Err?
  {
    var cleaned := "img/d/l";
    SpacedName(name);
    TrimmedName(name);
    TrimmedParts(cleaned);
    PlainExamples();
    SpacedTarget(target);
    SpacedTargetNormal(target);
    RenamedTop(name, target, [" img", "d", "l"], cleaned, ["img", "d", "l"], " img", "x");
  }

  /** The example for any name whose first component trimming changes. */
  lemma RenamedTop(name: string, target: string, p: seq<string>, cleaned: string, q: seq<string>, top: string,
        x: string)
    requires NameParts(name) == p && (Slashed(name) == "" || Slashed(name)[0] != '/')
    requires Normalize(name) == cleaned && Split(cleaned) == q && Join(q) == cleaned && Slashed(cleaned) == cleaned
    requires |p| == |q| == 3 && AllPlain(p) && AllPlain(q) && p[0] == top != q[0] && Plain(top) && Plain(x)
    requires Normalize(target) == target && Split(target) == ["..", "..", top, x] && Join(Split(target)) == target
    ensures ResolveArchiveSymlinkTarget(name, target) == Ok(target)
    ensures ReadLink(name, target).Err?
  {
    UpAndDown(p, target, top, x);
    UpAndDown(q, target, top, x);
    TrimmedNameAccepted(name, cleaned, q);
    assert Normal(Split(target));
    ReduceFixed(Split(target));
    assert target[0] == '.';
    TargetAccepted(name, target);
    PlainName(q);
    TargetAccepted(cleaned, target);
  }
}
