/**
 Extraction of a checked archive into an empty directory: which file operations
 the members lead to, when one of them is refused, and the tree that results.
 */
module ArchiveFiles {
  import opened Options
  import opened ArchivePath
  import opened ArchiveTree

  datatype Tree = Tree(dirs: set<Path>, files: set<Path>, links: Links)

  const EMPTY := Tree({}, {}, map[])

  /** Where the operating system takes a member whose own path is a link, if it opens it at all. */
  type Through = (Tree, Path) -> Option<Path>

  /** The path and the directories above it, without the extraction root. */
  function Prefixes(p: Path): (r: set<Path>)
    ensures forall q :: q in r <==> q != [] && q <= p
  {
    if p == [] then {}
    else
      var r := Prefixes(Parent(p)) + {p};
      assert forall q :: q in r <==> q != [] && q <= p by { PrefixesStep(p, r); }
      r
  }

  lemma PrefixesStep(p: Path, r: set<Path>)
    requires p != [] && forall q :: q in r <==> (q != [] && q <= Parent(p)) || q == p
    ensures forall q :: q in r <==> q != [] && q <= p
  {
    forall q ensures q in r <==> q != [] && q <= p { BelowOrAt(q, p); }
  }

  lemma BelowOrAt(q: Path, p: Path)
    requires p != []
    ensures q <= Parent(p) <==> q < p
    ensures q <= p <==> q == p || q < p
  {
  }

  /** Creating a directory with those above it; a file in the way refuses it. */
  function MakeDirs(t: Tree, p: Path): Option<Tree> {
    if exists q <- t.files :: q <= p then None else Some(t.(dirs := t.dirs + Prefixes(p)))
  }

  /** Something lies below the path. */
  predicate Occupied(t: Tree, p: Path) {
    exists q <- t.dirs + t.files + t.links.Keys :: p < q
  }

  /** Whatever had the name is removed, unless it is a directory with something in it. */
  function PlaceLink(t: Tree, h: Header): Option<Tree> {
    if h.stored.Err? || (h.path in t.dirs && Occupied(t, h.path)) then None
    else Some(Tree(t.dirs - {h.path}, t.files - {h.path}, t.links[h.path := TargetParts(h.stored.value)]))
  }

  /** A file is created or overwritten; a directory of its name refuses it. */
  function PlaceFile(t: Tree, p: Path, through: Through): Option<Tree> {
    if p in t.links then
      var landed := through(t, p);
      if landed.None? then None else Some(t.(files := t.files + {landed.value}))
    else if p in t.dirs then None
    else Some(t.(files := t.files + {p}))
  }

  /** The file operations of one member of a checked archive, none of whose parents is a link. */
  function Place(t: Tree, h: Header, through: Through): Option<Tree> {
    if h.path == [] then Some(t)
    else if h.mode.dir then
      if h.path !in t.links then MakeDirs(t, h.path) else if through(t, h.path).None? then None else Some(t)
    else
      var made := MakeDirs(t, Parent(h.path));
      if made.None? then None
      else if h.mode.link then PlaceLink(made.value, h)
      else PlaceFile(made.value, h.path, through)
  }

  /** The tree after these members in order, if no file operation was refused. */
  function TreeAfter(hs: seq<Header>, through: Through): Option<Tree> {
    if hs == [] then Some(EMPTY)
    else
      var before := TreeAfter(hs[..|hs| - 1], through);
      if before.None? then None else Place(before.value, hs[|hs| - 1], through)
  }

  /** The links of the tree are those the containment results follow. */
  lemma {:induction false} TreeLinks(hs: seq<Header>, through: Through)
    requires TreeAfter(hs, through).Some?
    ensures TreeAfter(hs, through).value.links == LinkMap(hs)
  {
    if hs != [] { TreeLinks(hs[..|hs| - 1], through); }
  }

  lemma {:induction false} RefusedStays(hs: seq<Header>, through: Through, i: nat)
    requires i <= |hs| && TreeAfter(hs, through).Some?
    ensures TreeAfter(hs[..i], through).Some?
    decreases |hs| - i
  {
    if i < |hs| {
      RefusedStays(hs, through, i + 1);
      assert hs[..i + 1][..i] == hs[..i];
    } else {
      assert hs[..i] == hs;
    }
  }

  // ---------- the extraction loop ----------

  /** One member as the program does it: a file is opened before its bytes are copied, a link's text is read first. */
  method ExtractOne(t: Tree, h: Header, budget: nat, expanded: nat, through: Through)
    returns (error: Option<Error>, taken: nat, next: Tree)
    requires expanded <= budget
    ensures error.None? <==> Extractable(h, budget, expanded) && Place(t, h, through).Some?
    ensures error.None? ==> taken == Written(h) <= budget - expanded && next == Place(t, h, through).value
    ensures taken <= budget - expanded + 1 && taken <= h.actual
  {
    var placed := Place(t, h, through);
    taken, next := 0, t;
    if h.cleaned.Ok? && placed.None? && !h.mode.link {
      return Some(NotPlaced), 0, t;
    }
    error, taken := TakeOne(h, budget, expanded);
    if error.None? {
      if placed.None? {
        return Some(NotPlaced), taken, t;
      }
      next := placed.value;
    }
  }

  /**
   Extraction succeeds exactly when the name, byte and link checks of every member pass and none of its file operations
   is refused. It then has taken exactly the members' bytes, within the budget; any run takes one byte more at most.
   */
  method Extract(hs: seq<Header>, budget: nat, through: Through) returns (result: Result<Tree, Error>, taken: nat)
    ensures result.Ok? <==> AllExtractable(hs, budget) && TreeAfter(hs, through).Some?
    ensures result.Ok? ==> TreeAfter(hs, through) == Some(result.value) && taken == WrittenTotal(hs) <= budget
    ensures taken <= budget + 1
  {
    taken := 0;
    var t := EMPTY;
    for i := 0 to |hs|
      invariant taken == WrittenTotal(hs[..i]) <= budget
      invariant AllExtractable(hs[..i], budget) && TreeAfter(hs[..i], through) == Some(t)
    {
      assert hs[..i + 1][..i] == hs[..i];
      if AllExtractable(hs, budget) && TreeAfter(hs, through).Some? {
        ExtractablePrefix(hs, budget, i + 1);
        RefusedStays(hs, through, i + 1);
      }
      var error, more, next := ExtractOne(t, hs[i], budget, taken, through);
      taken := taken + more;
      if error.Some? {
        return Err(error.value), taken;
      }
      t := next;
    }
    assert hs[..|hs|] == hs;
    result := Ok(t);
  }

  /** The whole of it: the header check, then the members in order. */
  method ExtractArchive(members: seq<Member>, budget: Budget, through: Through)
    returns (result: Result<Tree, Error>, taken: nat)
    ensures var hs := Headers(members);
            && (result.Ok? <==>
                  HeadersOk(hs, budget) && AllExtractable(hs, budget.expanded) && TreeAfter(hs, through).Some?)
            && (result.Ok? <==>
                  && ArchiveShape(members, budget) && EachAcceptable(hs)
                  && BytesSum(members) <= budget.expanded && TreeAfter(hs, through).Some?)
            && (result.Ok? ==> result.value.links == LinkMap(hs) && taken == BytesSum(members))
    ensures taken <= budget.expanded + 1
  {
    ShapeIff(members, budget);
    HeadersLimited(members);
    BytesAre(members);
    ExtractableIff(Headers(members), budget.expanded);
    var error := CheckArchiveHeaders(members, budget);
    if error.Some? {
      return Err(error.value), 0;
    }
    result, taken := Extract(Headers(members), budget.expanded, through);
    if result.Ok? { TreeLinks(Headers(members), through); }
  }

  // ---------- archives without duplicate paths ----------

  predicate IsFile(h: Header) {
    h.path != [] && !h.mode.dir && !h.mode.link
  }

  predicate IsLink(h: Header) {
    h.path != [] && !h.mode.dir && h.mode.link
  }

  /** Placing the member takes a directory at `q`. */
  predicate NeedsDir(h: Header, q: Path) {
    q != [] && if h.mode.dir then q <= h.path else q < h.path
  }

  /** No member lies below a file. */
  ghost predicate NoneBelowFile(hs: seq<Header>) {
    forall i, j :: 0 <= i < |hs| && 0 <= j < |hs| && IsFile(hs[i]) ==> !(hs[i].path < hs[j].path)
  }

  ghost predicate NoneBelowLink(hs: seq<Header>) {
    forall i, j :: 0 <= i < |hs| && 0 <= j < |hs| && IsLink(hs[i]) ==> !(hs[i].path < hs[j].path)
  }

  ghost predicate LinksStored(hs: seq<Header>) {
    forall i :: 0 <= i < |hs| && IsLink(hs[i]) ==> hs[i].stored.Ok?
  }

  ghost predicate SomeFile(hs: seq<Header>, q: Path) {
    exists i :: 0 <= i < |hs| && IsFile(hs[i]) && hs[i].path == q
  }

  ghost predicate SomeLink(hs: seq<Header>, q: Path) {
    exists i :: 0 <= i < |hs| && IsLink(hs[i]) && hs[i].path == q
  }

  ghost predicate SomeDir(hs: seq<Header>, q: Path) {
    exists i :: 0 <= i < |hs| && NeedsDir(hs[i], q)
  }

  /** The tree holds exactly the files and links of the members and the directories these need. */
  ghost predicate Shape(t: Tree, hs: seq<Header>) {
    && (forall q :: q in t.files <==> SomeFile(hs, q))
    && (forall q :: q in t.links <==> SomeLink(hs, q))
    && (forall q :: q in t.dirs <==> SomeDir(hs, q))
  }

  /** Neither the new member lies below an earlier file, nor an earlier member below the new one if it is a file. */
  ghost predicate FitsAfter(hs: seq<Header>, h: Header) {
    forall i :: 0 <= i < |hs| ==>
      && (IsFile(hs[i]) ==> !(hs[i].path < h.path))
      && (IsFile(h) ==> !(h.path < hs[i].path))
  }

  ghost predicate NewPath(hs: seq<Header>, h: Header) {
    h.path != [] ==> forall i :: 0 <= i < |hs| ==> hs[i].path != h.path
  }

  ghost predicate LinksApart(hs: seq<Header>, h: Header) {
    IsLink(h) ==> h.stored.Ok? && forall i :: 0 <= i < |hs| ==> !(h.path < hs[i].path)
  }

  ghost predicate BelowFile(hs: seq<Header>, p: Path) {
    exists i :: 0 <= i < |hs| && IsFile(hs[i]) && hs[i].path < p
  }

  ghost predicate SomeBelow(hs: seq<Header>, p: Path) {
    exists i :: 0 <= i < |hs| && p < hs[i].path
  }

  /** A file is in the way of the directories of a new path exactly when the path lies below a file. */
  lemma FileInWay(t: Tree, hs: seq<Header>, h: Header)
    requires Shape(t, hs) && NewPath(hs, h) && h.path != []
    ensures (exists q <- t.files :: q <= h.path) <==> BelowFile(hs, h.path)
    ensures (exists q <- t.files :: q <= Parent(h.path)) <==> BelowFile(hs, h.path)
  {
    if q :| q in t.files && q <= h.path {
      assert SomeFile(hs, q);
      var i :| 0 <= i < |hs| && IsFile(hs[i]) && hs[i].path == q;
      BelowOrAt(q, h.path);
    }
    if q :| q in t.files && q <= Parent(h.path) {
      assert SomeFile(hs, q);
      var i :| 0 <= i < |hs| && IsFile(hs[i]) && hs[i].path == q;
      BelowOrAt(q, h.path);
    }
    if i :| 0 <= i < |hs| && IsFile(hs[i]) && hs[i].path < h.path {
      BelowOrAt(hs[i].path, h.path);
      assert SomeFile(hs, hs[i].path);
      assert hs[i].path in t.files;
    }
  }

  /** A new path is a directory already exactly when something lies below it. */
  lemma DirInWay(t: Tree, hs: seq<Header>, h: Header)
    requires Shape(t, hs) && NewPath(hs, h) && h.path != []
    ensures h.path in t.dirs <==> SomeBelow(hs, h.path)
    ensures h.path !in t.links && h.path !in t.files
    ensures h.path !in Prefixes(Parent(h.path))
  {
    if h.path in t.dirs {
      var i :| 0 <= i < |hs| && NeedsDir(hs[i], h.path);
      BelowOrAt(h.path, hs[i].path);
    }
    if i :| 0 <= i < |hs| && h.path < hs[i].path {
      assert NeedsDir(hs[i], h.path);
      assert SomeDir(hs, h.path);
    }
  }

  lemma FitsWhen(hs: seq<Header>, h: Header)
    ensures FitsAfter(hs, h) <==> !BelowFile(hs, h.path) && (IsFile(h) ==> !SomeBelow(hs, h.path))
  {
  }

  /** When the file operations of a member with a new path succeed. */
  lemma PlacedIff(t: Tree, hs: seq<Header>, h: Header, through: Through)
    requires Shape(t, hs) && NewPath(hs, h) && LinksApart(hs, h)
    ensures Place(t, h, through).Some? <==> FitsAfter(hs, h)
  {
    FitsWhen(hs, h);
    if h.path != [] {
      FileInWay(t, hs, h);
      DirInWay(t, hs, h);
      var made := MakeDirs(t, Parent(h.path));
      if made.Some? { assert made.value.dirs == t.dirs + Prefixes(Parent(h.path)); }
    }
  }

  lemma SomeFileStep(hs: seq<Header>, h: Header, q: Path)
    ensures SomeFile(hs + [h], q) <==> SomeFile(hs, q) || (IsFile(h) && h.path == q)
  {
    var more := hs + [h];
    assert more[|hs|] == h;
    if i :| 0 <= i < |hs| && IsFile(hs[i]) && hs[i].path == q { assert more[i] == hs[i]; }
  }

  lemma SomeLinkStep(hs: seq<Header>, h: Header, q: Path)
    ensures SomeLink(hs + [h], q) <==> SomeLink(hs, q) || (IsLink(h) && h.path == q)
  {
    var more := hs + [h];
    assert more[|hs|] == h;
    if i :| 0 <= i < |hs| && IsLink(hs[i]) && hs[i].path == q { assert more[i] == hs[i]; }
  }

  lemma SomeDirStep(hs: seq<Header>, h: Header, q: Path)
    ensures SomeDir(hs + [h], q) <==> SomeDir(hs, q) || NeedsDir(h, q)
  {
    var more := hs + [h];
    assert more[|hs|] == h;
    if i :| 0 <= i < |hs| && NeedsDir(hs[i], q) { assert more[i] == hs[i]; }
  }

  /** What one member with a new path adds to the tree. */
  lemma PlacedAdds(t: Tree, hs: seq<Header>, h: Header, through: Through)
    requires Shape(t, hs) && NewPath(hs, h) && LinksApart(hs, h) && Place(t, h, through).Some?
    ensures var next := Place(t, h, through).value;
            && next.files == t.files + (if IsFile(h) then {h.path} else {})
            && next.links.Keys == t.links.Keys + (if IsLink(h) then {h.path} else {})
            && (forall q :: q in next.dirs <==> q in t.dirs || NeedsDir(h, q))
  {
    if h.path != [] {
      DirInWay(t, hs, h);
      forall q ensures q in Prefixes(Parent(h.path)) <==> q != [] && q < h.path { BelowOrAt(q, h.path); }
      if IsLink(h) { assert !SomeBelow(hs, h.path); }
    }
  }

  lemma ShapeStep(t: Tree, hs: seq<Header>, h: Header, through: Through)
    requires Shape(t, hs) && NewPath(hs, h) && LinksApart(hs, h) && Place(t, h, through).Some?
    ensures Shape(Place(t, h, through).value, hs + [h])
  {
    var next := Place(t, h, through).value;
    PlacedAdds(t, hs, h, through);
    forall q ensures (q in next.files <==> SomeFile(hs + [h], q)) && (q in next.links <==> SomeLink(hs + [h], q))
                     && (q in next.dirs <==> SomeDir(hs + [h], q))
    {
      SomeFileStep(hs, h, q);
      SomeLinkStep(hs, h, q);
      SomeDirStep(hs, h, q);
      assert q in next.links <==> q in next.links.Keys;
    }
  }

  lemma NoneBelowStep(hs: seq<Header>, h: Header)
    ensures NoneBelowFile(hs + [h]) <==> NoneBelowFile(hs) && FitsAfter(hs, h)
  {
    var more := hs + [h];
    assert more[|hs|] == h && forall i :: 0 <= i < |hs| ==> more[i] == hs[i];
    if NoneBelowFile(more) {
      forall i | 0 <= i < |hs|
        ensures (IsFile(hs[i]) ==> !(hs[i].path < h.path)) && (IsFile(h) ==> !(h.path < hs[i].path))
      {
        assert more[i] == hs[i];
      }
    }
  }

  lemma LastDistinct(hs: seq<Header>)
    requires hs != [] && DistinctPaths(hs) && NoneBelowLink(hs) && LinksStored(hs)
    ensures var init, h := hs[..|hs| - 1], hs[|hs| - 1];
            && hs == init + [h] && DistinctPaths(init) && NoneBelowLink(init) && LinksStored(init)
            && NewPath(init, h) && LinksApart(init, h)
  {
  }

  /**
   With distinct paths and nothing below a link, all file operations succeed exactly when no member lies below a file,
   in whatever order the members come; the tree then holds the members and the directories they need, and no more.
   */
  lemma {:induction false} DistinctPlacedIff(hs: seq<Header>, through: Through)
    requires DistinctPaths(hs) && NoneBelowLink(hs) && LinksStored(hs)
    ensures TreeAfter(hs, through).Some? <==> NoneBelowFile(hs)
    ensures TreeAfter(hs, through).Some? ==> Shape(TreeAfter(hs, through).value, hs)
    decreases |hs|
  {
    if hs != [] {
      var init, h := hs[..|hs| - 1], hs[|hs| - 1];
      LastDistinct(hs);
      DistinctPlacedIff(init, through);
      NoneBelowStep(init, h);
      var before := TreeAfter(init, through);
      if before.Some? {
        PlacedIff(before.value, init, h, through);
        if Place(before.value, h, through).Some? { ShapeStep(before.value, init, h, through); }
      }
    }
  }

  lemma SameNameSamePath(m: Member, n: Member)
    requires HeaderOf(m).cleaned.Ok? && HeaderOf(n).cleaned.Ok?
    ensures HeaderOf(m).path == [] <==> HeaderOf(m).cleaned.value == ""
    ensures HeaderOf(m).path == HeaderOf(n).path <==> HeaderOf(m).cleaned == HeaderOf(n).cleaned
  {
    HeaderIsSound(m);
    HeaderIsSound(n);
  }

  /** The names are acceptable and, where not empty, distinct. */
  ghost predicate DistinctNames(names: seq<Result<string, string>>) {
    && (forall i :: 0 <= i < |names| ==> names[i].Ok?)
    && (forall i, j :: 0 <= i < j < |names| && names[i].value != "" ==> names[i] != names[j])
  }

  lemma NamesArePaths(members: seq<Member>, names: seq<Result<string, string>>)
    requires |names| == |members| && forall i :: 0 <= i < |members| ==> names[i] == HeaderOf(members[i]).cleaned
    ensures DistinctNames(names) <==>
            (forall h <- Headers(members) :: h.cleaned.Ok?) && DistinctPaths(Headers(members))
  {
    var hs := Headers(members);
    assert forall i :: 0 <= i < |names| ==> names[i] == hs[i].cleaned && hs[i] in hs;
    if forall i :: 0 <= i < |names| ==> names[i].Ok? {
      forall i, j | 0 <= i < |hs| && 0 <= j < |hs|
        ensures (hs[i].path == [] <==> names[i].value == "") && (hs[i].path == hs[j].path <==> names[i] == names[j])
      {
        SameNameSamePath(members[i], members[j]);
      }
    }
  }

  /** The walk over the names with the set of those seen. */
  method FindDuplicate(names: seq<Result<string, string>>) returns (error: Option<Error>)
    ensures error.None? <==> DistinctNames(names)
  {
    var seen: set<string> := {};
    for i := 0 to |names|
      invariant DistinctNames(names[..i])
      invariant forall s :: s in seen <==> s != "" && Ok(s) in names[..i]
    {
      assert names[..i + 1] == names[..i] + [names[i]];
      if names[i].Err? {
        return Some(BadPath);
      }
      var name := names[i].value;
      if name != "" {
        if name in seen {
          return Some(DuplicatePath);
        }
        seen := seen + {name};
      }
    }
    assert names[..|names|] == names;
    error := None;
  }

  /** The daemon's validation of the names before it extracts: all acceptable and no two members of one path. */
  method CheckDuplicatePaths(members: seq<Member>) returns (error: Option<Error>)
    ensures error.None? <==>
            (forall h <- Headers(members) :: h.cleaned.Ok?) && DistinctPaths(Headers(members))
  {
    var names := seq(|members|, i requires 0 <= i < |members| => ValidateBuildArchivePath(members[i].name));
    NamesArePaths(members, names);
    error := FindDuplicate(names);
  }

  lemma CheckedLinks(members: seq<Member>, budget: Budget)
    requires HeadersOk(Headers(members), budget)
    ensures NoneBelowLink(Headers(members))
  {
    var hs := Headers(members);
    HeadersAreSound(members);
    forall i, j | 0 <= i < |hs| && 0 <= j < |hs| && IsLink(hs[i]) && hs[i].path < hs[j].path ensures false {
      var p, q := hs[i].path, hs[j].path;
      assert Sound(hs[i]) && HeaderOk(hs[i]);
      assert NoLinkParent(hs, q) && p == q[..|p|];
      assert hs[i].cleaned == Ok(Join(q[..|p|]));
      assert IsLinkName(hs, Join(q[..|p|]));
    }
  }

  lemma {:induction false} ExtractableStored(hs: seq<Header>, budget: nat)
    requires AllExtractable(hs, budget)
    ensures LinksStored(hs)
    decreases |hs|
  {
    if hs != [] { ExtractableStored(hs[..|hs| - 1], budget); }
  }

  /**
   An archive without duplicate paths, as the daemon validates it before extracting, extracts exactly when its headers
   and the name, byte and link checks of its members pass and no member lies below a file.
   */
  lemma ValidatedExtractsIff(members: seq<Member>, budget: Budget, through: Through)
    requires DistinctPaths(Headers(members))
    ensures var hs := Headers(members);
            var checked := HeadersOk(hs, budget) && AllExtractable(hs, budget.expanded);
            && (checked && TreeAfter(hs, through).Some? <==> checked && NoneBelowFile(hs))
            && (checked && NoneBelowFile(hs) ==> Shape(TreeAfter(hs, through).value, hs))
  {
    var hs := Headers(members);
    if HeadersOk(hs, budget) && AllExtractable(hs, budget.expanded) {
      CheckedLinks(members, budget);
      ExtractableStored(hs, budget.expanded);
      DistinctPlacedIff(hs, through);
    }
  }
}
