/**
 The tree a source archive extracts to, its symbolic links, and what following
 them physically can reach.
 */
module ArchiveTree {
  import opened Options
  import opened ArchivePath

  type Path = seq<string>

  /** Where each link is and the components of its stored target. */
  type Links = map<Path, seq<string>>

  /** A reader standing in directory `at` with components still to go. */
  datatype Cursor = Cursor(at: Path, rest: seq<string>)

  /** One step of physical resolution; a link replaces itself by its target. */
  function Advance(links: Links, c: Cursor): Cursor
    requires c.rest != []
  {
    var head, rest := c.rest[0], c.rest[1..];
    if head == ".." then Cursor(if c.at == [] then [] else Parent(c.at), rest)
    else
      var p := c.at + [head];
      if p in links then Cursor(c.at, links[p] + rest) else Cursor(p, rest)
  }

  /** At most `n` steps; links may form cycles, so resolution need not end. */
  function Follow(links: Links, c: Cursor, n: nat): Cursor
    decreases n
  {
    if n == 0 || c.rest == [] then c else Follow(links, Advance(links, c), n - 1)
  }

  ghost predicate ValidLinks(links: Links) {
    forall p <- links :: ValidLink(p, links[p])
  }

  function Ups(parts: seq<string>): (k: nat)
    ensures k <= |parts|
  {
    if parts == [] || parts[0] != ".." then 0 else 1 + Ups(parts[1..])
  }

  /**
   The reader is below `top` and the dot-dots still to come leave it there, or
   bring it to the root with `top` as the next name.
   */
  ghost predicate Contained(top: string, c: Cursor) {
    && AllPlain(c.at) && (c.at != [] ==> c.at[0] == top)
    && Normal(c.rest)
    && var k := Ups(c.rest);
       k < |c.at| || (k == |c.at| && k < |c.rest| && c.rest[k] == top)
  }

  lemma {:induction false} UpsLead(parts: seq<string>)
    requires Normal(parts)
    ensures forall i :: 0 <= i < Ups(parts) ==> parts[i] == ".."
    ensures AllPlain(parts[Ups(parts)..])
  {
    if parts != [] {
      if parts[0] == ".." {
        UpsLead(parts[1..]);
        assert parts[Ups(parts)..] == parts[1..][Ups(parts[1..])..];
      } else {
        assert parts[0..] == parts;
      }
    }
  }

  /** Where reading a normal path from a plain directory leads: up, then down. */
  function Landing(at: Path, parts: seq<string>): seq<string> {
    var k := Ups(parts);
    if k <= |at| then at[..|at| - k] + parts[k..] else parts[|at|..]
  }

  lemma {:induction false} ReduceFromPlain(at: Path, parts: seq<string>)
    requires AllPlain(at) && Normal(parts)
    ensures Reduce(at, parts) == Landing(at, parts)
    decreases |parts|
  {
    if parts == [] {
      assert at[..|at|] + [] == at;
    } else {
      ReduceFromPlain(at, parts[..|parts| - 1]);
      if parts[|parts| - 1] == ".." {
        LandUp(at, parts);
      } else {
        LandDown(at, parts);
      }
    }
  }

  /** A normal path that ends in dot-dot is nothing else. */
  lemma {:induction false} AllUps(parts: seq<string>)
    requires forall i :: 0 <= i < |parts| ==> parts[i] == ".."
    ensures Ups(parts) == |parts|
  {
    if parts != [] { AllUps(parts[1..]); }
  }

  lemma LandUp(at: Path, parts: seq<string>)
    requires AllPlain(at) && Normal(parts) && parts != [] && parts[|parts| - 1] == ".."
    ensures Push(Landing(at, parts[..|parts| - 1]), "..") == Landing(at, parts)
  {
    var n := |parts| - 1;
    var init := parts[..n];
    AllUps(parts);
    AllUps(init);
    if n < |at| {
      assert Landing(at, init) == at[..|at| - n];
      assert at[..|at| - n][..|at| - n - 1] == at[..|at| - n - 1];
    } else {
      assert Landing(at, init) == init[|at|..];
      assert init[|at|..] + [".."] == parts[|at|..];
    }
  }

  lemma LandDown(at: Path, parts: seq<string>)
    requires Normal(parts) && parts != [] && Plain(parts[|parts| - 1])
    ensures Push(Landing(at, parts[..|parts| - 1]), parts[|parts| - 1]) == Landing(at, parts)
  {
    var n := |parts| - 1;
    var k := Ups(parts);
    UpsLead(parts);
    UpsInit(parts);
    assert k <= |at| ==> parts[..n][k..] + [parts[n]] == parts[k..];
    assert k > |at| ==> parts[..n][|at|..] + [parts[n]] == parts[|at|..];
  }

  lemma {:induction false} UpsInit(parts: seq<string>)
    requires parts != []
    ensures Ups(parts[..|parts| - 1]) == Ups(parts)
        || (Ups(parts) == |parts| && Ups(parts[..|parts| - 1]) == |parts| - 1)
  {
    if |parts| > 1 && parts[0] == ".." {
      UpsInit(parts[1..]);
      assert parts[..|parts| - 1][1..] == parts[1..][..|parts[1..]| - 1];
    }
  }

  lemma {:induction false} UpsAppend(a: seq<string>, b: seq<string>)
    requires Normal(a) && AllPlain(b)
    ensures Ups(a + b) == Ups(a) && Normal(a + b)
  {
    if a == [] {
      assert a + b == b;
    } else if a[0] == ".." {
      UpsAppend(a[1..], b);
      assert (a + b)[1..] == a[1..] + b;
    }
  }

  lemma UpContained(top: string, c: Cursor)
    requires Contained(top, c) && c.rest != [] && c.rest[0] == ".."
    ensures c.at != [] && Contained(top, Cursor(Parent(c.at), c.rest[1..]))
  {
    assert Ups(c.rest) == 1 + Ups(c.rest[1..]);
  }

  lemma DownContained(top: string, c: Cursor)
    requires Contained(top, c) && c.rest != [] && c.rest[0] != ".."
    ensures AllPlain(c.rest) && Contained(top, Cursor(c.at + [c.rest[0]], c.rest[1..]))
    ensures c.at == [] ==> c.rest[0] == top
  {
    UpsLead(c.rest);
    assert c.rest[0..] == c.rest;
    UpsLead(c.rest[1..]);
    assert Ups(c.rest) == 0 && Ups(c.rest[1..]) == 0;
  }

  /** A link under `top` sends the reader through components that keep it there. */
  lemma LinkContained(top: string, at: Path, parts: seq<string>, rest: seq<string>, head: string)
    requires AllPlain(at) && (at + [head])[0] == top && ValidLink(at + [head], parts) && AllPlain(rest)
    ensures Contained(top, Cursor(at, parts + rest))
  {
    var p := at + [head];
    assert Parent(p) == at;
    ReduceFromPlain(at, parts);
    UpsLead(parts);
    UpsAppend(parts, rest);
  }

  lemma AdvanceContained(links: Links, top: string, c: Cursor)
    requires ValidLinks(links) && Contained(top, c) && c.rest != []
    ensures c.rest[0] == ".." ==> c.at != []
    ensures Contained(top, Advance(links, c))
  {
    var head, rest := c.rest[0], c.rest[1..];
    if head == ".." {
      UpContained(top, c);
    } else {
      DownContained(top, c);
      var p := c.at + [head];
      if p in links { LinkContained(top, c.at, links[p], rest, head); }
    }
  }

  /**
   Following any number of links physically, from a path under `top`, never
   climbs above the extraction root, stays on clean paths, and ends under `top`.
   */
  lemma {:induction false} FollowStaysInside(links: Links, top: string, c: Cursor, n: nat)
    requires ValidLinks(links) && Contained(top, c)
    ensures var d := Follow(links, c, n);
            && Contained(top, d)
            && (d.rest == [] ==> d.at != [] && d.at[0] == top && AllPlain(d.at))
            && (d.rest != [] && d.rest[0] == ".." ==> d.at != [])
    decreases n
  {
    UpsLead(c.rest);
    if n > 0 && c.rest != [] {
      AdvanceContained(links, top, c);
      FollowStaysInside(links, top, Advance(links, c), n - 1);
    }
  }

  // ---------- members ----------

  const MAX_DOCKERFILE := 1024 * 1024
  const MAX_METADATA := 1024 * 1024
  const MAX_LINK_TARGET := 4 * 1024

  /** File mode bits; a name that ends in a slash is a directory whatever else it is marked as. */
  datatype Mode = Mode(dir: bool, link: bool, special: bool)

  predicate Regular(m: Mode) {
    !m.dir && !m.link && !m.special
  }

  /** `declared` is the size in the header, `actual` what the stream really yields, `target` the text of a link. */
  datatype Member = Member(name: string, mode: Mode, target: string, declared: nat, actual: nat)

  datatype Budget = Budget(expanded: nat, entries: nat)

  datatype Error =
    | TooManyEntries
    | ExpandedTooLarge
    | BadPath
    | NotRegular
    | FileTooLarge
    | SymlinkParent
    | BadLink
    | NotPlaced
    | DuplicatePath

  /** The byte limit of a required build file, zero for any other member. */
  function RequiredLimit(cleaned: string): nat {
    var parts := Split(cleaned);
    if |parts| != 2 then 0
    else if parts[1] == "Dockerfile" then MAX_DOCKERFILE
    else if parts[1] == "metadata.json" then MAX_METADATA
    else 0
  }

  /** What the loops use of a member: its cleaned name and components, its limit and its checked link target. */
  datatype Header = Header(
    cleaned: Result<string, string>, path: Path, mode: Mode, declared: nat, actual: nat, limit: nat,
    stored: Result<string, string>)

  function HeaderOf(m: Member): Header {
    var cleaned := ValidateBuildArchivePath(m.name);
    var text := if cleaned.Ok? then cleaned.value else "";
    Header(
      cleaned,
      if text == "" then [] else Split(text),
      m.mode, m.declared, m.actual,
      RequiredLimit(text),
      ResolveArchiveSymlinkTarget(text, m.target))
  }

  function Headers(members: seq<Member>): (hs: seq<Header>)
    ensures |hs| == |members| && forall i :: 0 <= i < |members| ==> hs[i] == HeaderOf(members[i])
  {
    seq(|members|, i requires 0 <= i < |members| => HeaderOf(members[i]))
  }

  /** The components spell the cleaned name, and an accepted target of a link is valid where the link is. */
  ghost predicate Sound(h: Header) {
    && AllPlain(h.path)
    && (h.cleaned.Ok? ==> h.cleaned.value == Join(h.path))
    && (h.cleaned.Ok? && h.path != [] && h.stored.Ok? ==> ValidLink(h.path, TargetParts(h.stored.value)))
  }

  ghost predicate AllSound(hs: seq<Header>) {
    forall i :: 0 <= i < |hs| ==> Sound(hs[i])
  }

  lemma HeaderIsSound(m: Member)
    ensures Sound(HeaderOf(m))
  {
    PathAccepted(m.name);
    var h := HeaderOf(m);
    if h.cleaned.Ok? {
      AcceptedHasNoBackslash(m.name);
      if h.path != [] {
        PlainName(h.path);
        TargetAccepted(h.cleaned.value, m.target);
      }
    }
  }

  lemma HeadersAreSound(members: seq<Member>)
    ensures AllSound(Headers(members))
  {
    forall i | 0 <= i < |members| ensures Sound(Headers(members)[i]) {
      HeaderIsSound(members[i]);
    }
  }

  // ---------- the header check ----------

  function DeclaredTotal(hs: seq<Header>): nat {
    if hs == [] then 0 else DeclaredTotal(hs[..|hs| - 1]) + hs[|hs| - 1].declared
  }

  predicate HeaderOk(h: Header) {
    h.cleaned.Ok? && (h.limit > 0 ==> Regular(h.mode) && h.declared <= h.limit)
  }

  /** Some link member of the archive has this cleaned name. */
  ghost predicate IsLinkName(hs: seq<Header>, s: string) {
    exists j :: 0 <= j < |hs| && hs[j].mode.link && hs[j].cleaned == Ok(s)
  }

  ghost predicate NoLinkParent(hs: seq<Header>, p: Path) {
    forall k :: 0 < k < |p| ==> !IsLinkName(hs, Join(p[..k]))
  }

  ghost predicate EachHeaderOk(hs: seq<Header>) {
    forall i :: 0 <= i < |hs| ==> HeaderOk(hs[i])
  }

  /** What the header check promises about an archive it lets through. */
  ghost predicate HeadersOk(hs: seq<Header>, budget: Budget) {
    && |hs| <= budget.entries
    && DeclaredTotal(hs) <= budget.expanded
    && EachHeaderOk(hs)
    && (forall i :: 0 <= i < |hs| ==> NoLinkParent(hs, hs[i].path))
  }

  /** The two files every image directory must have. */
  predicate RequiredFile(p: Path) {
    |p| == 2 && (p[1] == "Dockerfile" || p[1] == "metadata.json")
  }

  lemma LimitIs(m: Member)
    ensures HeaderOf(m).limit == if RequiredFile(HeaderOf(m).path) then 1024 * 1024 else 0
  {
    if HeaderOf(m).path == [] { assert Split("") == [""]; }
  }

  function DeclaredSum(members: seq<Member>): nat {
    if members == [] then 0 else DeclaredSum(members[..|members| - 1]) + members[|members| - 1].declared
  }

  /** The name is acceptable, and a required file is a regular one of at most a MiB. */
  predicate MemberOk(m: Member) {
    && ValidateBuildArchivePath(m.name).Ok?
    && (RequiredFile(HeaderOf(m).path) ==>
          !m.mode.dir && !m.mode.link && !m.mode.special && m.declared <= 1024 * 1024)
  }

  ghost predicate BelowLink(members: seq<Member>, i: nat, j: nat)
    requires i < |members| && j < |members|
  {
    members[j].mode.link && HeaderOf(members[j]).path != [] && HeaderOf(members[j]).path < HeaderOf(members[i]).path
  }

  /** What the header check is for: few enough members, small enough, well named, and none below a link. */
  ghost predicate ArchiveShape(members: seq<Member>, budget: Budget) {
    && |members| <= budget.entries && DeclaredSum(members) <= budget.expanded
    && (forall i :: 0 <= i < |members| ==> MemberOk(members[i]))
    && (forall i: nat, j: nat | i < |members| && j < |members| :: !BelowLink(members, i, j))
  }

  lemma {:induction false} SumIs(members: seq<Member>)
    ensures DeclaredTotal(Headers(members)) == DeclaredSum(members)
    decreases |members|
  {
    if members != [] {
      SumIs(members[..|members| - 1]);
      assert Headers(members)[..|members| - 1] == Headers(members[..|members| - 1]);
    }
  }

  lemma HeaderOkIs(m: Member)
    ensures HeaderOk(HeaderOf(m)) <==> MemberOk(m)
  {
    LimitIs(m);
  }

  /** A link's name is a prefix of a path, component by component, exactly when its text is that prefix. */
  lemma LinkPrefix(m: Member, p: Path, k: nat)
    requires HeaderOf(m).cleaned.Ok? && AllPlain(p) && 0 < k < |p|
    ensures HeaderOf(m).cleaned == Ok(Join(p[..k])) <==> HeaderOf(m).path == p[..k]
  {
    HeaderIsSound(m);
    assert p[..k] != [] && AllPlain(p[..k]);
    SplitJoin(p[..k]);
    assert Plain(p[..k][0]) && p[..k][0] != "";
  }

  lemma LinkParentIff(members: seq<Member>, i: nat)
    requires i < |members| && forall j :: 0 <= j < |members| ==> HeaderOf(members[j]).cleaned.Ok?
    ensures NoLinkParent(Headers(members), HeaderOf(members[i]).path) <==>
            forall j: nat | j < |members| :: !BelowLink(members, i, j)
  {
    var hs, p := Headers(members), HeaderOf(members[i]).path;
    HeaderIsSound(members[i]);
    if j: nat :| j < |members| && BelowLink(members, i, j) {
      var k := |hs[j].path|;
      LinkPrefix(members[j], p, k);
      assert IsLinkName(hs, Join(p[..k]));
    }
    if k :| 0 < k < |p| && IsLinkName(hs, Join(p[..k])) {
      var j :| 0 <= j < |hs| && hs[j].mode.link && hs[j].cleaned == Ok(Join(p[..k]));
      LinkPrefix(members[j], p, k);
      assert BelowLink(members, i, j);
    }
  }

  /** The header check, read off the paths of the members. */
  lemma ShapeIff(members: seq<Member>, budget: Budget)
    ensures HeadersOk(Headers(members), budget) <==> ArchiveShape(members, budget)
  {
    SumIs(members);
    EachMemberOk(members);
    if EachHeaderOk(Headers(members)) { NoneBelowIff(members); }
  }

  lemma EachMemberOk(members: seq<Member>)
    ensures EachHeaderOk(Headers(members)) <==> forall i :: 0 <= i < |members| ==> MemberOk(members[i])
  {
    forall i | 0 <= i < |members| ensures HeaderOk(Headers(members)[i]) <==> MemberOk(members[i]) {
      HeaderOkIs(members[i]);
    }
  }

  lemma NoneBelowIff(members: seq<Member>)
    requires EachHeaderOk(Headers(members))
    ensures (forall i :: 0 <= i < |members| ==> NoLinkParent(Headers(members), Headers(members)[i].path)) <==>
            (forall i: nat, j: nat | i < |members| && j < |members| :: !BelowLink(members, i, j))
  {
    var hs := Headers(members);
    assert forall j :: 0 <= j < |members| ==> HeaderOk(hs[j]);
    forall i: nat | i < |members|
      ensures NoLinkParent(hs, hs[i].path) <==> forall j: nat | j < |members| :: !BelowLink(members, i, j)
    {
      LinkParentIff(members, i);
    }
  }

  lemma DirOfPrefix(p: Path, k: nat)
    requires AllPlain(p) && 0 < k <= |p|
    ensures Dir(Join(p[..k])) == Show(p[..k - 1])
    ensures Show(p[..k - 1]) == "." <==> k == 1
  {
    DirParts(p[..k]);
    assert Above(p[..k]) == p[..k - 1];
    ShowTells(p[..k - 1], "..");
  }

  /** The walk from a path to its parents, looking for a link. */
  method HasLinkParent(p: Path, cleaned: string, symlinks: set<string>) returns (found: bool)
    requires AllPlain(p) && cleaned == Join(p)
    ensures found <==> exists k :: 0 < k < |p| && Join(p[..k]) in symlinks
  {
    if |p| == 0 {
      return false;
    }
    ghost var k := |p| - 1;
    DirOfPrefix(p, |p|);
    assert p[..|p|] == p;
    var parent := Dir(cleaned);
    while parent != "."
      invariant 0 <= k < |p| && parent == Show(p[..k]) && (parent == "." <==> k == 0)
      invariant forall l :: k < l < |p| ==> Join(p[..l]) !in symlinks
      decreases k
    {
      if parent in symlinks {
        return true;
      }
      DirOfPrefix(p, k);
      parent := Dir(parent);
      k := k - 1;
    }
    found := false;
  }

  ghost predicate LinkNames(hs: seq<Header>, symlinks: set<string>) {
    forall s :: s in symlinks <==> IsLinkName(hs, s)
  }

  lemma LinkNamesStep(hs: seq<Header>, symlinks: set<string>, h: Header)
    requires LinkNames(hs, symlinks) && h.cleaned.Ok?
    ensures LinkNames(hs + [h], if h.mode.link then symlinks + {h.cleaned.value} else symlinks)
  {
    var more := hs + [h];
    forall s ensures IsLinkName(more, s) <==> IsLinkName(hs, s) || (h.mode.link && h.cleaned == Ok(s)) {
      if j :| 0 <= j < |hs| && hs[j].mode.link && hs[j].cleaned == Ok(s) {
        assert more[j] == hs[j];
      }
      if h.mode.link && h.cleaned == Ok(s) {
        assert more[|hs|] == h;
      }
      if j :| 0 <= j < |more| && more[j].mode.link && more[j].cleaned == Ok(s) {
        assert j < |hs| ==> hs[j] == more[j];
      }
    }
  }

  lemma {:induction false} TotalGrows(hs: seq<Header>, i: nat)
    requires i <= |hs|
    ensures DeclaredTotal(hs[..i]) <= DeclaredTotal(hs)
    decreases |hs| - i
  {
    if i < |hs| {
      TotalGrows(hs, i + 1);
      assert hs[..i + 1][..i] == hs[..i];
    } else {
      assert hs[..i] == hs;
    }
  }

  /** An error of the header check tells the truth about some member. */
  ghost predicate Shows(hs: seq<Header>, budget: Budget, error: Error) {
    match error
    case TooManyEntries => |hs| > budget.entries
    case ExpandedTooLarge => DeclaredTotal(hs) > budget.expanded
    case BadPath => exists h <- hs :: h.cleaned.Err?
    case NotRegular => exists h <- hs :: h.limit > 0 && !Regular(h.mode)
    case FileTooLarge => exists h <- hs :: h.limit > 0 && h.declared > h.limit
    case SymlinkParent => exists h <- hs :: !NoLinkParent(hs, h.path)
    case _ => false
  }

  /** The first loop: sizes, paths, required files, and the set of link names. */
  method CheckEachHeader(hs: seq<Header>, budget: Budget) returns (error: Option<Error>, symlinks: set<string>)
    ensures error.None? <==> DeclaredTotal(hs) <= budget.expanded && EachHeaderOk(hs)
    ensures error.None? ==> LinkNames(hs, symlinks)
    ensures error.Some? ==> Shows(hs, budget, error.value) && !error.value.TooManyEntries?
  {
    var expanded := 0;
    symlinks := {};
    for i := 0 to |hs|
      invariant expanded == DeclaredTotal(hs[..i]) <= budget.expanded
      invariant EachHeaderOk(hs[..i])
      invariant LinkNames(hs[..i], symlinks)
    {
      var h := hs[i];
      assert hs[..i + 1] == hs[..i] + [h];
      TotalGrows(hs, i + 1);
      if h.declared > budget.expanded - expanded {
        return Some(ExpandedTooLarge), {};
      }
      if h.cleaned.Err? {
        return Some(BadPath), {};
      }
      LinkNamesStep(hs[..i], symlinks, h);
      if h.mode.link {
        symlinks := symlinks + {h.cleaned.value};
      }
      if h.limit > 0 && !Regular(h.mode) {
        return Some(NotRegular), {};
      }
      if h.limit > 0 && h.declared > h.limit {
        return Some(FileTooLarge), {};
      }
      expanded := expanded + h.declared;
    }
    assert hs[..|hs|] == hs;
    error := None;
  }

  /** An archive passes exactly when it has the promised shape. */
  method CheckArchiveHeaders(members: seq<Member>, budget: Budget) returns (error: Option<Error>)
    ensures error.None? <==> HeadersOk(Headers(members), budget)
    ensures error.None? <==> ArchiveShape(members, budget)
    ensures error.Some? ==> Shows(Headers(members), budget, error.value)
  {
    ShapeIff(members, budget);
    HeadersAreSound(members);
    error := CheckHeaderList(Headers(members), budget);
  }

  method CheckHeaderList(hs: seq<Header>, budget: Budget) returns (error: Option<Error>)
    requires AllSound(hs)
    ensures error.None? <==> HeadersOk(hs, budget)
    ensures error.Some? ==> Shows(hs, budget, error.value)
  {
    if |hs| > budget.entries {
      return Some(TooManyEntries);
    }
    var first, symlinks := CheckEachHeader(hs, budget);
    if first.Some? {
      return first;
    }
    for i := 0 to |hs|
      invariant forall j :: 0 <= j < i ==> NoLinkParent(hs, hs[j].path)
    {
      assert Sound(hs[i]) && HeaderOk(hs[i]);
      var below := HasLinkParent(hs[i].path, hs[i].cleaned.value, symlinks);
      if below {
        return Some(SymlinkParent);
      }
    }
    error := None;
  }

  // ---------- reading members ----------

  /** The bytes one member may still expand to. */
  function Allowance(h: Header, budget: nat, before: nat): nat
    requires before <= budget
  {
    if h.limit > 0 && h.limit < budget - before then h.limit else budget - before
  }

  /** Whether the name, the bytes and the link text of a member pass when `before` bytes have been taken already. */
  predicate Extractable(h: Header, budget: nat, before: nat)
    requires before <= budget
  {
    && h.cleaned.Ok?
    && (h.path == [] || h.mode.dir ||
        if h.mode.link then
          && h.declared <= MAX_LINK_TARGET && h.actual <= MAX_LINK_TARGET && h.actual <= budget - before
          && h.stored.Ok?
        else h.actual <= Allowance(h, budget, before))
  }

  /** The text of a link is at most 4 KiB, as declared and as read, and its target acceptable. */
  predicate LinkOk(h: Header) {
    h.declared <= 4096 && h.actual <= 4096 && h.stored.Ok?
  }

  /** An error of one member's checks tells the truth about it. */
  predicate Blames(h: Header, remaining: nat, error: Error) {
    match error
    case BadPath => h.cleaned.Err?
    case ExpandedTooLarge => h.actual > remaining
    case FileTooLarge => 0 < h.limit < h.actual
    case BadLink => h.mode.link && !LinkOk(h)
    case _ => false
  }

  function Written(h: Header): nat {
    if h.mode.dir || h.path == [] then 0 else h.actual
  }

  function WrittenTotal(hs: seq<Header>): nat {
    if hs == [] then 0 else WrittenTotal(hs[..|hs| - 1]) + Written(hs[|hs| - 1])
  }

  /** The bytes of all members that have a path and are not directories. */
  function BytesSum(members: seq<Member>): nat {
    if members == [] then 0
    else
      var m := members[|members| - 1];
      BytesSum(members[..|members| - 1]) + if m.mode.dir || HeaderOf(m).path == [] then 0 else m.actual
  }

  lemma {:induction false} BytesAre(members: seq<Member>)
    ensures WrittenTotal(Headers(members)) == BytesSum(members)
    decreases |members|
  {
    if members != [] {
      BytesAre(members[..|members| - 1]);
      assert Headers(members)[..|members| - 1] == Headers(members[..|members| - 1]);
    }
  }

  /** Every member passes after the ones before it. */
  ghost predicate AllExtractable(hs: seq<Header>, budget: nat) {
    hs != [] ==>
      && AllExtractable(hs[..|hs| - 1], budget)
      && WrittenTotal(hs[..|hs| - 1]) <= budget
      && Extractable(hs[|hs| - 1], budget, WrittenTotal(hs[..|hs| - 1]))
  }

  /** A member that would be extracted on its own, whatever comes before it. */
  predicate Acceptable(h: Header) {
    && h.cleaned.Ok?
    && (h.path == [] || h.mode.dir
        || if h.mode.link then LinkOk(h) else RequiredFile(h.path) ==> h.actual <= 1024 * 1024)
  }

  ghost predicate EachAcceptable(hs: seq<Header>) {
    forall h <- hs :: Acceptable(h)
  }

  ghost predicate Limited(hs: seq<Header>) {
    forall i :: 0 <= i < |hs| ==> hs[i].limit == if RequiredFile(hs[i].path) then 1024 * 1024 else 0
  }

  lemma HeadersLimited(members: seq<Member>)
    ensures Limited(Headers(members))
  {
    forall i | 0 <= i < |members|
      ensures HeaderOf(members[i]).limit == if RequiredFile(HeaderOf(members[i]).path) then 1024 * 1024 else 0
    {
      LimitIs(members[i]);
    }
  }

  /** The members pass in order exactly when each passes on its own and all their bytes together fit the budget. */
  lemma {:induction false} ExtractableIff(hs: seq<Header>, budget: nat)
    requires Limited(hs)
    ensures AllExtractable(hs, budget) <==> EachAcceptable(hs) && WrittenTotal(hs) <= budget
    decreases |hs|
  {
    if hs != [] {
      ExtractableIff(hs[..|hs| - 1], budget);
      EachStep(hs);
      OneIff(hs[|hs| - 1], budget, WrittenTotal(hs[..|hs| - 1]));
    }
  }

  lemma OneIff(h: Header, budget: nat, before: nat)
    requires h.limit == if RequiredFile(h.path) then 1024 * 1024 else 0
    ensures before <= budget ==> (Extractable(h, budget, before) <==> Acceptable(h) && before + Written(h) <= budget)
  {
  }

  lemma EachStep(hs: seq<Header>)
    requires hs != []
    ensures EachAcceptable(hs) <==> EachAcceptable(hs[..|hs| - 1]) && Acceptable(hs[|hs| - 1])
  {
    assert hs == hs[..|hs| - 1] + [hs[|hs| - 1]];
  }

  lemma {:induction false} ExtractablePrefix(hs: seq<Header>, budget: nat, i: nat)
    requires AllExtractable(hs, budget) && i <= |hs|
    ensures AllExtractable(hs[..i], budget)
    decreases |hs| - i
  {
    if i == |hs| {
      assert hs[..i] == hs;
    } else {
      ExtractablePrefix(hs, budget, i + 1);
      assert hs[..i + 1][..i] == hs[..i];
    }
  }

  /** The links after extracting these members in order; a later link at the same path replaces an earlier one. */
  function LinkMap(hs: seq<Header>): Links {
    if hs == [] then map[]
    else
      var before, h := LinkMap(hs[..|hs| - 1]), hs[|hs| - 1];
      if h.mode.link && !h.mode.dir && h.path != [] && h.stored.Ok? then before[h.path := TargetParts(h.stored.value)]
          else before
  }

  ghost predicate StoresLink(h: Header, p: Path) {
    h.mode.link && !h.mode.dir && h.path == p && p != [] && h.stored.Ok?
  }

  /** A link leads where the last member of its path says. */
  lemma {:induction false} LastLinkCounts(hs: seq<Header>, i: nat, p: Path)
    requires i < |hs| && StoresLink(hs[i], p) && forall j :: i < j < |hs| ==> !StoresLink(hs[j], p)
    ensures p in LinkMap(hs)
    ensures LinkMap(hs)[p] == if hs[i].stored.value == "." then [] else Split(hs[i].stored.value)
    decreases |hs|
  {
    if i < |hs| - 1 { LastLinkCounts(hs[..|hs| - 1], i, p); }
  }

  /**
   The checks of one member and the bytes taken from its stream, which pass the budget by one at most to tell an
   overrun. They refuse exactly when the name, a byte bound or the link target does.
   */
  method TakeOne(h: Header, budget: nat, expanded: nat) returns (error: Option<Error>, taken: nat)
    requires expanded <= budget
    ensures error.None? <==> Extractable(h, budget, expanded)
    ensures error.Some? ==> Blames(h, budget - expanded, error.value)
    ensures error.None? ==> taken == Written(h) <= budget - expanded
    ensures taken <= budget - expanded + 1 && taken <= h.actual
    ensures taken > budget - expanded ==> error in {Some(ExpandedTooLarge), Some(FileTooLarge)}
  {
    if h.cleaned.Err? {
      return Some(BadPath), 0;
    }
    if h.path == [] || h.mode.dir {
      return None, 0;
    }
    if h.mode.link {
      error, taken := ReadTarget(h, budget - expanded);
      return;
    }
    var remaining := budget - expanded;
    if h.limit > 0 && h.limit < remaining {
      remaining := h.limit;
    }
    taken := if h.actual < remaining + 1 then h.actual else remaining + 1;
    error := if taken <= remaining then None
             else if h.limit > 0 && remaining == h.limit then Some(FileTooLarge) else Some(ExpandedTooLarge);
  }

  /** The text of a link. One byte more than either bound tells an exact fit from an overrun. */
  method ReadTarget(h: Header, remaining: nat) returns (error: Option<Error>, taken: nat)
    ensures error.None? <==>
            h.declared <= MAX_LINK_TARGET && h.actual <= MAX_LINK_TARGET && h.actual <= remaining && h.stored.Ok?
    ensures error.Some? ==> if error.value.ExpandedTooLarge? then h.actual > remaining
                            else error.value.BadLink? && !LinkOk(h)
    ensures error.None? ==> taken == h.actual
    ensures taken <= remaining + 1 && taken <= h.actual
    ensures taken > remaining ==> error == Some(ExpandedTooLarge)
  {
    if h.declared > MAX_LINK_TARGET {
      return Some(BadLink), 0;
    }
    var readLimit := MAX_LINK_TARGET + 1;
    if remaining + 1 < readLimit {
      readLimit := remaining + 1;
    }
    taken := if h.actual < readLimit then h.actual else readLimit;
    if taken > remaining {
      return Some(ExpandedTooLarge), taken;
    }
    if taken > MAX_LINK_TARGET {
      return Some(BadLink), taken;
    }
    error := if h.stored.Ok? then None else Some(BadLink);
  }

  /** Every link that extraction stores is valid, at any moment of the extraction. */
  lemma {:induction false} StoredLinksValid(hs: seq<Header>)
    requires AllSound(hs) && forall i :: 0 <= i < |hs| ==> hs[i].cleaned.Ok?
    ensures ValidLinks(LinkMap(hs))
    ensures forall p <- LinkMap(hs) :: IsLinkName(hs, Join(p))
  {
    if hs != [] {
      var init, h := hs[..|hs| - 1], hs[|hs| - 1];
      StoredLinksValid(init);
      assert Sound(h);
      forall p <- LinkMap(hs) ensures IsLinkName(hs, Join(p)) {
        if p == h.path && h.mode.link && !h.mode.dir {
          assert hs[|hs| - 1] == h;
        } else {
          var j :| 0 <= j < |init| && init[j].mode.link && init[j].cleaned == Ok(Join(p));
          assert hs[j] == init[j];
        }
      }
    }
  }

  lemma {:induction false} ExtractableNames(hs: seq<Header>, budget: nat, i: nat)
    requires AllExtractable(hs, budget) && i < |hs|
    ensures hs[i].cleaned.Ok?
    decreases |hs|
  {
    if i < |hs| - 1 {
      ExtractableNames(hs[..|hs| - 1], budget, i);
    }
  }

  /**
   At any moment of an extraction, after `done` members, following links physically from any member's path stays
   inside its top-level directory, also when the member is written through a link.
   */
  lemma ExtractedTreeIsContained(members: seq<Member>, budget: nat, done: nat, i: nat, n: nat)
    requires done <= |members| && i < |members|
    requires AllExtractable(Headers(members)[..done], budget) && HeaderOf(members[i]).path != []
    ensures var p := HeaderOf(members[i]).path;
            var d := Follow(LinkMap(Headers(members)[..done]), Cursor([], p), n);
            && Contained(p[0], d)
            && (d.rest == [] ==> d.at != [] && d.at[0] == p[0])
            && (d.rest != [] && d.rest[0] == ".." ==> d.at != [])
  {
    var hs := Headers(members);
    HeadersAreSound(members);
    forall j | 0 <= j < done ensures hs[..done][j].cleaned.Ok? { ExtractableNames(hs[..done], budget, j); }
    StoredLinksValid(hs[..done]);
    var p := hs[i].path;
    assert Sound(hs[i]);
    UpsLead(p);
    assert Ups(p) == 0;
    FollowStaysInside(LinkMap(hs[..done]), p[0], Cursor([], p), n);
  }

  /** A walk that meets no link goes down name by name. */
  lemma {:induction false} DirectWalk(links: Links, at: Path, rest: Path, tail: Path)
    requires AllPlain(rest)
    requires forall k :: 0 < k <= |rest| ==> at + rest[..k] !in links
    ensures Follow(links, Cursor(at, rest + tail), |rest|) == Cursor(at + rest, tail)
    decreases |rest|
  {
    if rest == [] {
      assert at + rest == at && rest + tail == tail;
    } else {
      assert at + rest[..1] == at + [rest[0]];
      assert (rest + tail)[1..] == rest[1..] + tail;
      forall k | 0 < k <= |rest[1..]| ensures at + [rest[0]] + rest[1..][..k] !in links {
        assert at + [rest[0]] + rest[1..][..k] == at + rest[..k + 1];
      }
      DirectWalk(links, at + [rest[0]], rest[1..], tail);
      assert at + [rest[0]] + rest[1..] == at + rest;
    }
  }

  lemma {:induction false} FollowOn(links: Links, c: Cursor, m: nat, n: nat)
    ensures Follow(links, c, m + n) == Follow(links, Follow(links, c, m), n)
    decreases m
  {
    if m > 0 && c.rest != [] { FollowOn(links, Advance(links, c), m - 1, n); }
  }

  /** At any moment of the extraction the directory a member is written into is reached without meeting a link. */
  lemma ParentsAreDirect(members: seq<Member>, budget: Budget, done: nat, i: nat, tail: Path)
    requires HeadersOk(Headers(members), budget) && done <= |members| && i < |members|
    requires HeaderOf(members[i]).path != []
    ensures var p := HeaderOf(members[i]).path;
            Follow(LinkMap(Headers(members)[..done]), Cursor([], Parent(p) + tail), |p| - 1) == Cursor(Parent(p), tail)
  {
    var hs := Headers(members);
    var p, links := hs[i].path, LinkMap(hs[..done]);
    HeadersAreSound(members);
    assert Sound(hs[i]) && NoLinkParent(hs, hs[i].path);
    forall k | 0 < k <= |Parent(p)| ensures [] + Parent(p)[..k] !in links {
      assert [] + Parent(p)[..k] == p[..k];
      NotALink(hs, done, p[..k]);
    }
    DirectWalk(links, [], Parent(p), tail);
    assert [] + Parent(p) == Parent(p);
  }

  /**
   At the moment a member of a checked archive is written, its path leads exactly where it is named if and only if no
   earlier member left a link of that very name; otherwise the walk goes on with that link's target.
   */
  lemma MembersLandWhereNamed(members: seq<Member>, budget: Budget, i: nat)
    requires HeadersOk(Headers(members), budget) && i < |members| && HeaderOf(members[i]).path != []
    ensures var p, links := HeaderOf(members[i]).path, LinkMap(Headers(members)[..i]);
            var d := Follow(links, Cursor([], p), |p|);
            && (d == Cursor(p, []) <==> p !in links)
            && (p in links ==> d == Cursor(Parent(p), links[p]))
  {
    var p, links := HeaderOf(members[i]).path, LinkMap(Headers(members)[..i]);
    HeadersAreSound(members);
    assert Sound(Headers(members)[i]);
    ParentsAreDirect(members, budget, i, i, [p[|p| - 1]]);
    LastStep(links, p);
  }

  /** The last name of a path whose directory is reached directly. */
  lemma LastStep(links: Links, p: Path)
    requires p != [] && AllPlain(p)
    requires Follow(links, Cursor([], Parent(p) + [p[|p| - 1]]), |p| - 1) == Cursor(Parent(p), [p[|p| - 1]])
    ensures Follow(links, Cursor([], p), |p|) == if p in links then Cursor(Parent(p), links[p]) else Cursor(p, [])
  {
    var last := [p[|p| - 1]];
    assert p == Parent(p) + last;
    FollowOn(links, Cursor([], p), |p| - 1, 1);
    assert Plain(last[0]);
    assert last[1..] == [];
    assert Follow(links, Cursor(Parent(p), last), 1) == Advance(links, Cursor(Parent(p), last));
    if p in links { assert links[p] + [] == links[p]; }
  }

  /** No two members have one path; a member without a path is skipped. */
  ghost predicate DistinctPaths(hs: seq<Header>) {
    forall i, j :: 0 <= i < j < |hs| && hs[i].path != [] ==> hs[i].path != hs[j].path
  }

  lemma {:induction false} LinkHasMember(hs: seq<Header>, p: Path) returns (j: nat)
    requires p in LinkMap(hs)
    ensures j < |hs| && hs[j].path == p && hs[j].mode.link && !hs[j].mode.dir && p != []
    decreases |hs|
  {
    var h := hs[|hs| - 1];
    if h.mode.link && !h.mode.dir && h.path == p && p != [] {
      j := |hs| - 1;
    } else {
      j := LinkHasMember(hs[..|hs| - 1], p);
    }
  }

  /** In a checked archive without duplicate paths every member lands exactly where it is named. */
  lemma DistinctMembersLand(members: seq<Member>, budget: Budget, i: nat)
    requires HeadersOk(Headers(members), budget) && DistinctPaths(Headers(members))
    requires i < |members| && HeaderOf(members[i]).path != []
    ensures var p := HeaderOf(members[i]).path;
            Follow(LinkMap(Headers(members)[..i]), Cursor([], p), |p|) == Cursor(p, [])
  {
    MembersLandWhereNamed(members, budget, i);
    NewPathNoLink(Headers(members), i);
  }

  lemma NewPathNoLink(hs: seq<Header>, i: nat)
    requires DistinctPaths(hs) && i < |hs|
    ensures hs[i].path !in LinkMap(hs[..i])
  {
    if hs[i].path in LinkMap(hs[..i]) {
      var j := LinkHasMember(hs[..i], hs[i].path);
      assert false;
    }
  }

  /** A path that is no link member's name is no link at any moment. */
  lemma NotALink(hs: seq<Header>, done: nat, q: Path)
    requires AllSound(hs) && EachHeaderOk(hs) && done <= |hs| && !IsLinkName(hs, Join(q))
    ensures q !in LinkMap(hs[..done])
  {
    forall j | 0 <= j < done ensures hs[..done][j].cleaned.Ok? { assert HeaderOk(hs[j]); }
    StoredLinksValid(hs[..done]);
    PrefixLinkName(hs, done, Join(q));
  }

  lemma PrefixLinkName(hs: seq<Header>, done: nat, s: string)
    requires done <= |hs|
    ensures IsLinkName(hs[..done], s) ==> IsLinkName(hs, s)
  {
    if j :| 0 <= j < done && hs[..done][j].mode.link && hs[..done][j].cleaned == Ok(s) {
      assert hs[j] == hs[..done][j];
    }
  }

  // ---------- a member written through a link ----------

  const LINK := Mode(false, true, false)
  const FILE := Mode(false, false, false)

  lemma ExampleName(p: Path)
    requires p == ["img", "l"]
    ensures ValidateBuildArchivePath(Join(p)) == Ok(Join(p)) && Split(Join(p)) == p && RequiredLimit(Join(p)) == 0
  {
    ExamplePath(p);
    SplitJoin(p);
    var name := Join(p);
    assert Join(p[1..]) == "l" && name == "img" + "/" + "l" == "img/l";
    assert TrimLeft(name) == name && TrimRight(name) == name;
    TrimmedNameAccepted(name, name, p);
    assert |"l"| == 1 && |"Dockerfile"| == 10 && |"metadata.json"| == 13;
  }

  lemma ExampleHeader(p: Path, m: Member)
    requires p == ["img", "l"] && m.name == Join(p)
    ensures var h := HeaderOf(m); h.cleaned == Ok(Join(p)) && h.path == p && h.limit == 0 && h.mode == m.mode
    ensures m.target == " a" ==> HeaderOf(m).stored == Ok("a")
  {
    ExampleName(p);
    ReadTargetExample(p);
  }

  lemma ExampleHeaders(p: Path, members: seq<Member>)
    requires p == ["img", "l"] && |members| == 2 && members[0].target == " a"
    requires forall m <- members :: m.name == Join(p)
    ensures forall h <- Headers(members) :: h.cleaned == Ok(Join(p)) && h.path == p && h.limit == 0
    ensures Headers(members)[0].stored == Ok("a")
  {
    forall i | 0 <= i < 2
      ensures var h := Headers(members)[i]; h.cleaned == Ok(Join(p)) && h.path == p && h.limit == 0
    {
      ExampleHeader(p, members[i]);
    }
    ExampleHeader(p, members[0]);
  }

  /**
   A link and then a file of the same name pass the header check and the checks of each member, and the file is written
   to the link's target. The daemon's validation refuses such an archive beforehand, because the paths are not distinct.
   */
  lemma SecondMemberExample(p: Path, members: seq<Member>, a: string)
    requires p == ["img", "l"] && |members| == 2 && a == "a"
    requires forall m <- members :: m.name == Join(p)
    requires members[0].mode == LINK && members[0].target == " a" && members[0].declared == members[0].actual == 2
    requires members[1].mode == FILE && members[1].declared == members[1].actual == 5
    ensures HeadersOk(Headers(members), Budget(7, 2)) && AllExtractable(Headers(members), 7)
    ensures Headers(members)[1].path == p && !DistinctPaths(Headers(members))
    ensures Follow(LinkMap(Headers(members)[..1]), Cursor([], p), 3) == Cursor([p[0], a], [])
  {
    ExampleHeaders(p, members);
    ExamplePlain(p);
    PairExample(Headers(members), p, a);
  }

  lemma ExamplePlain(p: Path)
    requires p == ["img", "l"]
    ensures AllPlain(p) && Plain("a") && "a" != p[1]
  {
    ExamplePath(p);
    assert |"a"| == 1 && "a"[0] == 'a' && "l"[0] == 'l';
  }

  lemma PairExample(hs: seq<Header>, p: Path, a: string)
    requires |hs| == 2 && |p| == 2 && AllPlain(p) && Plain(a) && a != p[1]
    requires forall h <- hs :: h.cleaned == Ok(Join(p)) && h.path == p && h.limit == 0
    requires hs[0].mode == LINK && hs[0].stored == Ok(a) && hs[0].declared == hs[0].actual == 2
    requires hs[1].mode == FILE && hs[1].declared == hs[1].actual == 5
    ensures HeadersOk(hs, Budget(7, 2)) && AllExtractable(hs, 7)
    ensures Follow(LinkMap(hs[..1]), Cursor([], p), 3) == Cursor([p[0], a], [])
  {
    PairChecked(hs, p);
    ThroughLink(hs, p, a);
  }

  lemma PairChecked(hs: seq<Header>, p: Path)
    requires |hs| == 2 && |p| == 2 && AllPlain(p)
    requires forall h <- hs :: h.cleaned == Ok(Join(p)) && h.path == p && h.limit == 0
    requires hs[0].mode == LINK && hs[0].stored.Ok? && hs[0].declared == hs[0].actual == 2
    requires hs[1].mode == FILE && hs[1].declared == hs[1].actual == 5
    ensures HeadersOk(hs, Budget(7, 2)) && AllExtractable(hs, 7)
  {
    PairExtracted(hs);
    forall k | 0 < k < |p| ensures !IsLinkName(hs, Join(p[..k])) {
      assert Join(p[..1]) == p[0] && Join(p) == p[0] + "/" + Join(p[1..]);
      assert |Join(p)| > |p[0]|;
    }
  }

  lemma PairExtracted(hs: seq<Header>)
    requires |hs| == 2 && forall h <- hs :: h.cleaned.Ok? && h.limit == 0 && h.path != []
    requires hs[0].mode == LINK && hs[0].stored.Ok? && hs[0].declared == hs[0].actual == 2
    requires hs[1].mode == FILE && hs[1].declared == hs[1].actual == 5
    ensures DeclaredTotal(hs) == 7 && AllExtractable(hs, 7)
  {
    var one := hs[..1];
    assert one[..0] == [] && one[|one| - 1] == hs[0] && hs[0] in hs && hs[1] in hs;
    assert DeclaredTotal([]) == 0 && WrittenTotal([]) == 0 && AllExtractable([], 7);
    assert one[..|one| - 1] == [] && hs[..|hs| - 1] == one;
    assert Extractable(hs[0], 7, 0) && AllExtractable(one, 7);
    assert WrittenTotal(one) == 2 && DeclaredTotal(one) == 2;
    assert Extractable(hs[1], 7, 2);
  }

  /** A link `p` to its neighbour `a`: the path of the link leads to the neighbour. */
  lemma ThroughLink(hs: seq<Header>, p: Path, a: string)
    requires |hs| == 2 && |p| == 2 && AllPlain(p) && Plain(a) && a != p[1]
    requires hs[0].path == p && hs[0].mode == LINK && hs[0].stored == Ok(a)
    ensures Follow(LinkMap(hs[..1]), Cursor([], p), 3) == Cursor([p[0], a], [])
  {
    var links, up := LinkMap(hs[..1]), [p[0]];
    var one := [hs[0]];
    assert hs[..1] == one && one[..0] == [] && LinkMap([]) == map[];
    SplitNoSlash(a);
    assert links == map[p := [a]];
    assert Plain(p[0]) && Plain(p[1]);
    assert up + [p[1]] == p && up + [a] == [p[0], a] != p && up != p;
    assert p[1..] == [p[1]] && [] + up == up;
    assert Advance(links, Cursor([], p)) == Cursor(up, [p[1]]);
    assert [p[1]][1..] == [] && [a] + [] == [a] && [a][1..] == [];
    assert Advance(links, Cursor(up, [p[1]])) == Cursor(up, [a]);
    assert Advance(links, Cursor(up, [a])) == Cursor([p[0], a], []);
    ThreeSteps(links, Cursor([], p), Cursor(up, [p[1]]), Cursor(up, [a]));
  }

  lemma ThreeSteps(links: Links, c: Cursor, d: Cursor, e: Cursor)
    requires c.rest != [] && d.rest != [] && e.rest != []
    requires Advance(links, c) == d && Advance(links, d) == e
    ensures Follow(links, c, 3) == Advance(links, e)
  {
    assert Follow(links, Advance(links, e), 0) == Advance(links, e);
    assert Follow(links, e, 1) == Advance(links, e);
    assert Follow(links, d, 2) == Follow(links, e, 1);
  }
}
