/**
 JSON values, the JSON Patch operations of RFC 6902 that the recovery adapters
 send, and what those patches do to a document the server holds.
 */
module JsonPatch {
  import opened Options

  datatype Json =
    | Null
    | Bool(flag: bool)
    | Num(number: int)
    | Str(text: string)
    | Arr(items: seq<Json>)
    | Obj(fields: map<string, Json>)

  // ---------- RFC 6902 on member-name pointers ----------

  /** A JSON Pointer, by its reference tokens. The tokens in use are member names, never array indices. */
  type Pointer = seq<string>

  datatype Operation =
    | Test(path: Pointer, value: Json)
    | Add(path: Pointer, value: Json)
    | Replace(path: Pointer, value: Json)

  function Lookup(doc: Json, path: Pointer): Option<Json> {
    if path == [] then Some(doc)
    else if doc.Obj? && path[0] in doc.fields then Lookup(doc.fields[path[0]], path[1..])
    else None
  }

  /** Section 4.1: the containing object must exist; a member that exists already is replaced. */
  function AddAt(doc: Json, path: Pointer, value: Json): Option<Json> {
    if path == [] then Some(value)
    else if !doc.Obj? then None
    else if |path| == 1 then Some(Obj(doc.fields[path[0] := value]))
    else if path[0] !in doc.fields then None
    else
      var inner := AddAt(doc.fields[path[0]], path[1..], value);
      if inner.None? then None else Some(Obj(doc.fields[path[0] := inner.value]))
  }

  /** Sections 4.1, 4.3 and 4.6. */
  function ApplyOne(doc: Json, op: Operation): Option<Json> {
    match op
    case Test(path, value) => if Lookup(doc, path) == Some(value) then Some(doc) else None
    case Add(path, value) => AddAt(doc, path, value)
    case Replace(path, value) => if Lookup(doc, path).None? then None else AddAt(doc, path, value)
  }

  /** Section 5: operations apply in order and a failing one fails the whole patch. */
  function Apply(doc: Json, ops: seq<Operation>): Option<Json>
    decreases |ops|
  {
    if ops == [] then Some(doc)
    else
      var next := ApplyOne(doc, ops[0]);
      if next.None? then None else Apply(next.value, ops[1..])
  }

  /** What the server holds after a patch request: the patched document, or the one it had. */
  function Served(doc: Json, ops: seq<Operation>): Json {
    var patched := Apply(doc, ops);
    if patched.Some? then patched.value else doc
  }

  // ---------- metadata of an API object ----------

  const UID: Pointer := ["metadata", "uid"]
  const VERSION: Pointer := ["metadata", "resourceVersion"]
  const FINALIZERS: Pointer := ["metadata", "finalizers"]

  function Strings(names: seq<string>): Json {
    Arr(seq(|names|, i requires 0 <= i < |names| => Str(names[i])))
  }

  predicate IsStrings(value: Json) {
    value.Arr? && forall i :: 0 <= i < |value.items| ==> value.items[i].Str?
  }

  function Texts(value: Json): seq<string>
    requires IsStrings(value)
  {
    seq(|value.items|, i requires 0 <= i < |value.items| => value.items[i].text)
  }

  lemma StringsRoundTrip(names: seq<string>)
    ensures IsStrings(Strings(names)) && Texts(Strings(names)) == names
  {
    assert Texts(Strings(names)) == names;
  }

  lemma TextsRoundTrip(value: Json)
    requires IsStrings(value)
    ensures Strings(Texts(value)) == value
  {
    assert Strings(Texts(value)).items == value.items;
  }

  /** The finalizers as the client library reads them: nothing unless they are a list of strings. */
  function ReadFinalizers(doc: Json): Option<seq<string>> {
    var value := Lookup(doc, FINALIZERS);
    if value.Some? && IsStrings(value.value) then Some(Texts(value.value)) else None
  }

  function FinalizerList(doc: Json): seq<string> {
    var read := ReadFinalizers(doc);
    if read.Some? then read.value else []
  }

  /** Every pointer outside the finalizers reads the same in both documents. */
  ghost predicate SameElsewhere(a: Json, b: Json) {
    forall path: Pointer | !(FINALIZERS <= path) && !(path <= FINALIZERS) :: Lookup(a, path) == Lookup(b, path)
  }

  lemma LookupMetadata(doc: Json, path: Pointer)
    requires |path| >= 2
    ensures Lookup(doc, path) ==
            if doc.Obj? && path[0] in doc.fields && doc.fields[path[0]].Obj? && path[1] in doc.fields[path[0]].fields
            then Lookup(doc.fields[path[0]].fields[path[1]], path[2..]) else None
  {
    assert path[1..][1..] == path[2..];
    if doc.Obj? && path[0] in doc.fields {
      assert Lookup(doc, path) == Lookup(doc.fields[path[0]], path[1..]);
    }
  }

  predicate HasMetadata(doc: Json) {
    doc.Obj? && "metadata" in doc.fields && doc.fields["metadata"].Obj?
  }

  function SetFinalizers(doc: Json, value: Json): Json
    requires HasMetadata(doc)
  {
    Obj(doc.fields["metadata" := Obj(doc.fields["metadata"].fields["finalizers" := value])])
  }

  /** Adding the finalizers needs the metadata object and is then a plain member update. */
  lemma AddFinalizers(doc: Json, value: Json)
    ensures AddAt(doc, FINALIZERS, value) == if HasMetadata(doc) then Some(SetFinalizers(doc, value)) else None
  {
    assert FINALIZERS[1..] == ["finalizers"];
  }

  /** Setting the finalizers is read back and changes nothing else. */
  lemma SetFinalizersFrame(doc: Json, value: Json)
    requires HasMetadata(doc)
    ensures HasMetadata(SetFinalizers(doc, value))
    ensures Lookup(SetFinalizers(doc, value), FINALIZERS) == Some(value)
    ensures SameElsewhere(doc, SetFinalizers(doc, value))
  {
    var after := SetFinalizers(doc, value);
    LookupMetadata(after, FINALIZERS);
    forall path: Pointer | !(FINALIZERS <= path) && !(path <= FINALIZERS)
      ensures Lookup(doc, path) == Lookup(after, path)
    {
      assert |path| == 1 ==> (path <= FINALIZERS <==> path[0] == "metadata");
      assert |path| >= 2 ==> (FINALIZERS <= path <==> path[0] == "metadata" && path[1] == "finalizers");
      if |path| >= 2 {
        LookupMetadata(doc, path);
        LookupMetadata(after, path);
      }
    }
  }

  // ---------- appending the hold ----------

  /** The stage adapter's patch: pin identity and version, then append `hold` to the finalizers it saw. */
  function AppendOperations(uid: string, version: string, before: Option<seq<string>>, hold: string): seq<Operation> {
    [Test(UID, Str(uid)), Test(VERSION, Str(version))] +
    if before.None? then [Add(FINALIZERS, Strings([hold]))]
    else [Test(FINALIZERS, Strings(before.value)), Replace(FINALIZERS, Strings(before.value + [hold]))]
  }

  predicate Pinned(doc: Json, uid: string, version: string) {
    Lookup(doc, UID) == Some(Str(uid)) && Lookup(doc, VERSION) == Some(Str(version))
  }

  lemma PinnedHasMetadata(doc: Json, uid: string, version: string)
    requires Pinned(doc, uid, version)
    ensures HasMetadata(doc)
  {
    LookupMetadata(doc, UID);
  }

  /** A patch that begins with the two identity tests is the rest of the patch on a pinned document. */
  lemma TestsFirst(doc: Json, uid: string, version: string, rest: seq<Operation>)
    ensures Apply(doc, [Test(UID, Str(uid)), Test(VERSION, Str(version))] + rest) ==
            if Pinned(doc, uid, version) then Apply(doc, rest) else None
  {
    var ops := [Test(UID, Str(uid)), Test(VERSION, Str(version))] + rest;
    assert ops[1..] == [Test(VERSION, Str(version))] + rest;
    assert ops[1..][1..] == rest;
  }

  lemma ApplyAdd(doc: Json, value: Json)
    requires HasMetadata(doc)
    ensures Apply(doc, [Add(FINALIZERS, value)]) == Some(SetFinalizers(doc, value))
  {
    AddFinalizers(doc, value);
    var ops := [Add(FINALIZERS, value)];
    assert ops[1..] == [];
  }

  lemma ApplySwap(doc: Json, before: Json, after: Json)
    requires HasMetadata(doc)
    ensures Apply(doc, [Test(FINALIZERS, before), Replace(FINALIZERS, after)]) ==
            if Lookup(doc, FINALIZERS) == Some(before) then Some(SetFinalizers(doc, after)) else None
  {
    AddFinalizers(doc, after);
    var ops := [Test(FINALIZERS, before), Replace(FINALIZERS, after)];
    var rest := [Replace(FINALIZERS, after)];
    assert ops[1..] == rest && rest[1..] == [];
    if Lookup(doc, FINALIZERS) == Some(before) {
      assert Apply(doc, ops) == Apply(doc, rest);
      assert ApplyOne(doc, rest[0]) == Some(SetFinalizers(doc, after));
    }
  }

  /** When the patch succeeds, on any document whatever, and what it then makes of it. */
  lemma AppendOutcome(doc: Json, uid: string, version: string, before: Option<seq<string>>, hold: string)
    ensures Apply(doc, AppendOperations(uid, version, before, hold)).Some? <==>
            Pinned(doc, uid, version) && (before.Some? ==> Lookup(doc, FINALIZERS) == Some(Strings(before.value)))
    ensures Apply(doc, AppendOperations(uid, version, before, hold)).Some? ==>
              var list := if before.Some? then before.value else [];
              && HasMetadata(doc)
              && Served(doc, AppendOperations(uid, version, before, hold)) == SetFinalizers(doc, Strings(list + [hold]))
  {
    if before.None? {
      TestsFirst(doc, uid, version, [Add(FINALIZERS, Strings([hold]))]);
      assert [] + [hold] == [hold];
    } else {
      TestsFirst(doc, uid, version,
          [Test(FINALIZERS, Strings(before.value)), Replace(FINALIZERS, Strings(before.value + [hold]))]);
    }
    if Pinned(doc, uid, version) {
      PinnedHasMetadata(doc, uid, version);
      ApplyAdd(doc, Strings([hold]));
      if before.Some? { ApplySwap(doc, Strings(before.value), Strings(before.value + [hold])); }
    }
  }

  /** The resource version changes whenever the content does: one identity and version, one document. */
  ghost predicate Versioned(observed: Json, current: Json) {
    forall uid, version :: Pinned(observed, uid, version) && Pinned(current, uid, version) ==> observed == current
  }

  lemma ReadBack(doc: Json, names: seq<string>)
    requires HasMetadata(doc)
    ensures ReadFinalizers(SetFinalizers(doc, Strings(names))) == Some(names)
  {
    SetFinalizersFrame(doc, Strings(names));
    StringsRoundTrip(names);
  }

  lemma AppendsToPinned(current: Json, uid: string, version: string, hold: string)
    requires Pinned(current, uid, version)
    ensures var after := Served(current, AppendOperations(uid, version, ReadFinalizers(current), hold));
            FinalizerList(after) == FinalizerList(current) + [hold] && SameElsewhere(current, after)
  {
    var before := ReadFinalizers(current);
    if before.Some? { TextsRoundTrip(Lookup(current, FINALIZERS).value); }
    AppendOutcome(current, uid, version, before, hold);
    var names := FinalizerList(current) + [hold];
    SetFinalizersFrame(current, Strings(names));
    ReadBack(current, names);
  }

  /**
   The patch built from an observed document leaves the server's current document as it is, or appends the
   hold to finalizers that lacked it; it takes effect exactly when identity and version are still those observed.
   */
  lemma AppendsHoldOnce(observed: Json, current: Json, uid: string, version: string, hold: string)
    requires Pinned(observed, uid, version) && Versioned(observed, current)
    requires hold !in FinalizerList(observed)
    ensures var after := Served(current, AppendOperations(uid, version, ReadFinalizers(observed), hold));
            if Pinned(current, uid, version) then
              && hold !in FinalizerList(current)
              && FinalizerList(after) == FinalizerList(current) + [hold]
              && SameElsewhere(current, after)
            else after == current
  {
    AppendOutcome(current, uid, version, ReadFinalizers(observed), hold);
    if Pinned(current, uid, version) { AppendsToPinned(current, uid, version, hold); }
  }

  /** Sending the patch a second time never changes what the first time left, on any document. */
  lemma AppendReplay(doc: Json, uid: string, version: string, before: Option<seq<string>>, hold: string)
    ensures var ops := AppendOperations(uid, version, before, hold); Served(Served(doc, ops), ops) == Served(doc, ops)
  {
    var ops := AppendOperations(uid, version, before, hold);
    AppendOutcome(doc, uid, version, before, hold);
    if Apply(doc, ops).Some? {
      var list := if before.Some? then before.value else [];
      var after := SetFinalizers(doc, Strings(list + [hold]));
      AppendOutcome(after, uid, version, before, hold);
      SetFinalizersFrame(doc, Strings(list + [hold]));
      if before.Some? {
        assert |Strings(list).items| != |Strings(list + [hold]).items|;
      } else {
        var inner := after.fields["metadata"].fields;
        assert inner["finalizers" := Strings(list + [hold])] == inner;
        assert after.fields["metadata" := after.fields["metadata"]] == after.fields;
      }
    }
  }

  /**
   Whatever the server does with versions: finalizers are lost only by a patch that saw none, on a document that has
   some.
   */
  lemma AppendLosesIff(current: Json, uid: string, version: string, before: Option<seq<string>>, hold: string)
    ensures var after := Served(current, AppendOperations(uid, version, before, hold));
            FinalizerList(current) <= FinalizerList(after) <==>
            !(before.None? && Pinned(current, uid, version) && !(FinalizerList(current) <= [hold]))
  {
    AppendOutcome(current, uid, version, before, hold);
    if Apply(current, AppendOperations(uid, version, before, hold)).Some? {
      var list := if before.Some? then before.value else [];
      ReadBack(current, list + [hold]);
      StringsRoundTrip(list);
      assert before.None? ==> list + [hold] == [hold];
    }
  }

  // ---------- removing the allowed finalizers ----------

  function Without(names: seq<string>, allowed: seq<string>): seq<string> {
    if names == [] then []
    else Without(names[..|names| - 1], allowed) + if names[|names| - 1] in allowed then [] else [names[|names| - 1]]
  }

  /** Exactly the names that are not allowed stay, each occurrence of them, in their order. */
  lemma {:induction false} WithoutKeepsOrder(names: seq<string>, allowed: seq<string>) returns (kept: seq<nat>)
    ensures |kept| == |Without(names, allowed)|
    ensures forall k :: 0 <= k < |kept| ==> kept[k] < |names| && Without(names, allowed)[k] == names[kept[k]]
    ensures forall k, l :: 0 <= k < l < |kept| ==> kept[k] < kept[l]
    ensures forall i: nat :: i in kept <==> i < |names| && names[i] !in allowed
    decreases |names|
  {
    if names == [] {
      kept := [];
    } else {
      var n := |names| - 1;
      var init := names[..n];
      kept := WithoutKeepsOrder(init, allowed);
      if names[n] !in allowed {
        KeepLast(kept, n);
        kept := kept + [n];
      }
    }
  }

  lemma KeepLast(kept: seq<nat>, n: nat)
    requires forall k :: 0 <= k < |kept| ==> kept[k] < n
    requires forall k, l :: 0 <= k < l < |kept| ==> kept[k] < kept[l]
    ensures forall k, l :: 0 <= k < l < |kept + [n]| ==> (kept + [n])[k] < (kept + [n])[l]
    ensures forall i: nat :: i in kept + [n] <==> i in kept || i == n
  {
  }

  /** A string as Go decodes it: null leaves the empty string. */
  function DecodeString(value: Json): Option<string> {
    if value.Str? then Some(value.text) else if value.Null? then Some("") else None
  }

  /** A list of strings as Go decodes it: null leaves the empty list. */
  function DecodeList(value: Json): Option<seq<string>> {
    if value.Null? then Some([])
    else if value.Arr? && forall i :: 0 <= i < |value.items| ==> DecodeString(value.items[i]).Some? then
      Some(seq(|value.items|, i requires 0 <= i < |value.items| => DecodeString(value.items[i]).value))
    else None
  }

  lemma DecodeStrings(names: seq<string>)
    ensures DecodeList(Strings(names)) == Some(names)
  {
    assert DecodeList(Strings(names)).value == names;
  }

  /** Four operations: three tests against the object, and a replacement by the filtered finalizers. */
  predicate DisposalShape(ops: seq<Operation>) {
    && |ops| == 4
    && ops[0].Test? && ops[0].path == UID
    && ops[1].Test? && ops[1].path == VERSION
    && ops[2].Test? && ops[2].path == FINALIZERS
    && ops[3].Replace? && ops[3].path == FINALIZERS
  }

  predicate DisposalAccepted(ops: seq<Operation>, uid: string, version: string, allowed: seq<string>) {
    && DisposalShape(ops)
    && DecodeString(ops[0].value) == Some(uid) && DecodeString(ops[1].value) == Some(version)
    && DecodeList(ops[2].value).Some?
    && ops[3].value.Arr?
    && DecodeList(ops[3].value) == Some(Without(DecodeList(ops[2].value).value, allowed))
  }

  /** The disposal adapter's check of a patch before it is sent. */
  method CheckDisposalPatch(ops: seq<Operation>, uid: string, version: string, allowed: seq<string>) returns (ok: bool)
    ensures ok <==> DisposalAccepted(ops, uid, version, allowed)
  {
    if !DisposalShape(ops) { return false; }
    var before, after := DecodeList(ops[2].value), DecodeList(ops[3].value);
    if DecodeString(ops[0].value) != Some(uid) || DecodeString(ops[1].value) != Some(version) || before.None?
        || after.None? {
      return false;
    }
    var wanted: seq<string> := [];
    for i := 0 to |before.value|
      invariant wanted == Without(before.value[..i], allowed)
    {
      assert before.value[..i + 1][..i] == before.value[..i];
      if before.value[i] !in allowed { wanted := wanted + [before.value[i]]; }
    }
    assert before.value[..|before.value|] == before.value;
    // A list decoded from null is written back as null, never as the empty list.
    ok := !ops[3].value.Null? && wanted == after.value;
  }

  /** When a patch of the accepted shape succeeds, and what it then makes of the document. */
  lemma SwapOutcome(doc: Json, ops: seq<Operation>)
    requires DisposalShape(ops)
    ensures Apply(doc, ops).Some? <==>
            && Lookup(doc, UID) == Some(ops[0].value) && Lookup(doc, VERSION) == Some(ops[1].value)
            && Lookup(doc, FINALIZERS) == Some(ops[2].value)
    ensures Apply(doc, ops).Some? ==> HasMetadata(doc) && Served(doc, ops) == SetFinalizers(doc, ops[3].value)
  {
    assert ops[1..][1..] == [ops[2], ops[3]];
    if Lookup(doc, UID) == Some(ops[0].value) && Lookup(doc, VERSION) == Some(ops[1].value) {
      LookupMetadata(doc, UID);
      ApplySwap(doc, ops[2].value, ops[3].value);
      assert [ops[2], ops[3]] == [Test(FINALIZERS, ops[2].value), Replace(FINALIZERS, ops[3].value)];
    }
  }

  /**
   An accepted patch leaves the document alone, or the document has the identity and the version asked for and loses
   exactly the allowed finalizers and nothing else.
   */
  lemma DisposalRemovesAllowed(doc: Json, ops: seq<Operation>, uid: string, version: string, allowed: seq<string>)
    requires DisposalAccepted(ops, uid, version, allowed)
    ensures var after := Served(doc, ops);
            || after == doc
            || (&& Lookup(doc, UID).Some? && DecodeString(Lookup(doc, UID).value) == Some(uid)
                && Lookup(doc, VERSION).Some? && DecodeString(Lookup(doc, VERSION).value) == Some(version)
                && Lookup(doc, FINALIZERS).Some? && Lookup(after, FINALIZERS).Some?
                && DecodeList(Lookup(doc, FINALIZERS).value).Some?
                && DecodeList(Lookup(after, FINALIZERS).value)
                   == Some(Without(DecodeList(Lookup(doc, FINALIZERS).value).value, allowed))
                && SameElsewhere(doc, after))
  {
    SwapOutcome(doc, ops);
    if Apply(doc, ops).Some? { SetFinalizersFrame(doc, ops[3].value); }
  }

  /** The patch made for an object with these finalizers is accepted, and takes effect on it. */
  lemma DisposalAccepts(doc: Json, uid: string, version: string, names: seq<string>, allowed: seq<string>)
    requires Pinned(doc, uid, version) && Lookup(doc, FINALIZERS) == Some(Strings(names))
    ensures var ops := [Test(UID, Str(uid)), Test(VERSION, Str(version)), Test(FINALIZERS, Strings(names)),
                        Replace(FINALIZERS, Strings(Without(names, allowed)))];
            && DisposalAccepted(ops, uid, version, allowed)
            && Lookup(Served(doc, ops), FINALIZERS) == Some(Strings(Without(names, allowed)))
  {
    var ops := [Test(UID, Str(uid)), Test(VERSION, Str(version)), Test(FINALIZERS, Strings(names)),
                Replace(FINALIZERS, Strings(Without(names, allowed)))];
    DecodeStrings(names);
    DecodeStrings(Without(names, allowed));
    SwapOutcome(doc, ops);
    SetFinalizersFrame(doc, Strings(Without(names, allowed)));
  }

  lemma {:induction false} WithoutShrinks(names: seq<string>, allowed: seq<string>)
    ensures |Without(names, allowed)| <= |names|
    ensures Without(names, allowed) == names <==> forall f <- names :: f !in allowed
    decreases |names|
  {
    if names != [] {
      var n := |names| - 1;
      WithoutShrinks(names[..n], allowed);
      assert names == names[..n] + [names[n]];
      if names[n] !in allowed {
        assert Without(names, allowed)[..|Without(names, allowed)| - 1] == Without(names[..n], allowed);
      } else {
        assert |Without(names, allowed)| < |names|;
      }
    }
  }

  lemma {:induction false} WithoutCounts(names: seq<string>, allowed: seq<string>, f: string)
    ensures multiset(Without(names, allowed))[f] == if f in allowed then 0 else multiset(names)[f]
    decreases |names|
  {
    if names != [] {
      var n := |names| - 1;
      var init := Without(names[..n], allowed);
      WithoutCounts(names[..n], allowed, f);
      LastCounts(names, f);
      LastCounts(init + [names[n]], f);
      assert (init + [names[n]])[..|init|] == init && init + [] == init;
    }
  }

  lemma LastCounts(names: seq<string>, f: string)
    requires names != []
    ensures multiset(names)[f] == multiset(names[..|names| - 1])[f] + if names[|names| - 1] == f then 1 else 0
  {
    assert names == names[..|names| - 1] + [names[|names| - 1]];
  }

  /** Removing after appending restores the list exactly when the hold is allowed and nothing else in the list is. */
  lemma RemoveAfterAppend(names: seq<string>, hold: string, allowed: seq<string>)
    ensures Without(names + [hold], allowed) == names <==> hold in allowed && forall f <- names :: f !in allowed
  {
    assert (names + [hold])[..|names|] == names;
    WithoutShrinks(names, allowed);
    WithoutCounts(names + [hold], allowed, hold);
    assert multiset(names + [hold])[hold] == multiset(names)[hold] + 1;
  }

  /**
   The hold appended to a document and then disposed of, whatever else happened to the document in between:
   its finalizers read as they did before exactly when the hold was allowed and none of them was.
   */
  lemma DisposalUndoesAppend(
      doc: Json, held: Json, ops: seq<Operation>, uid: string, version: string, nextVersion: string, hold: string,
          allowed: seq<string>)
    requires Pinned(doc, uid, version)
    requires var appended := Served(doc, AppendOperations(uid, version, ReadFinalizers(doc), hold));
             Lookup(held, FINALIZERS) == Lookup(appended, FINALIZERS)
    requires DisposalAccepted(ops, uid, nextVersion, allowed) && Apply(held, ops).Some?
    ensures Lookup(Served(held, ops), FINALIZERS).Some?
    ensures DecodeList(Lookup(Served(held, ops), FINALIZERS).value) == Some(FinalizerList(doc)) <==>
            hold in allowed && forall f <- FinalizerList(doc) :: f !in allowed
  {
    var names := FinalizerList(doc);
    AppendsToPinned(doc, uid, version, hold);
    var appended := Served(doc, AppendOperations(uid, version, ReadFinalizers(doc), hold));
    TextsRoundTrip(Lookup(appended, FINALIZERS).value);
    DecodeStrings(names + [hold]);
    SwapOutcome(held, ops);
    SetFinalizersFrame(held, ops[3].value);
    RemoveAfterAppend(names, hold, allowed);
  }

  // ---------- a proposal contained in the object the server returned ----------

  function Member(fields: map<string, Json>, name: string): Json {
    if name in fields then fields[name] else Null
  }

  /** The server may add members, but keeps every proposed value and the length of every proposed array. */
  predicate ContainsProposal(proposed: Json, current: Json)
    decreases proposed
  {
    match proposed
    case Obj(fields) => current.Obj? && forall name | name in fields ::
        ContainsProposal(fields[name], Member(current.fields, name))
    case Arr(items) =>
      && current.Arr? && |items| == |current.items|
      && forall i | 0 <= i < |items| :: ContainsProposal(items[i], current.items[i])
    case _ => proposed == current
  }

  datatype Step = Name(name: string) | Index(index: nat)

  /** The value a path of members and indices leads to; a member that is absent reads as null. */
  function At(value: Json, path: seq<Step>): Option<Json>
    decreases |path|
  {
    if path == [] then Some(value)
    else if path[0].Name? && value.Obj? then At(Member(value.fields, path[0].name), path[1..])
    else if path[0].Index? && value.Arr? && path[0].index < |value.items| then At(value.items[path[0].index], path[1..])
    else None
  }

  /** Same scalar, both objects, or arrays of one length. */
  predicate SameShape(a: Json, b: Json) {
    if a.Obj? then b.Obj? else if a.Arr? then b.Arr? && |a.items| == |b.items| else a == b
  }

  /** Wherever the proposal sets a value, null included, the current one has its like; absent counts as null. */
  ghost predicate AgreesAt(proposed: Json, current: Json, path: seq<Step>) {
    Proposes(proposed, path) ==> At(current, path).Some? && SameShape(At(proposed, path).value, At(current, path).value)
  }

  /** The path follows members that are present in the proposal. */
  predicate Proposes(value: Json, path: seq<Step>)
    ensures Proposes(value, path) ==> At(value, path).Some?
    decreases |path|
  {
    if path == [] then true
    else if path[0].Name? && value.Obj? then
      path[0].name in value.fields && Proposes(value.fields[path[0].name], path[1..])
    else
      && path[0].Index? && value.Arr? && path[0].index < |value.items|
      && Proposes(value.items[path[0].index], path[1..])
  }

  lemma {:induction false} ContainedAgrees(proposed: Json, current: Json, path: seq<Step>)
    requires ContainsProposal(proposed, current)
    ensures AgreesAt(proposed, current, path)
    decreases |path|
  {
    if path != [] && Proposes(proposed, path) {
      if proposed.Obj? {
        ContainedAgrees(proposed.fields[path[0].name], Member(current.fields, path[0].name), path[1..]);
      } else {
        ContainedAgrees(proposed.items[path[0].index], current.items[path[0].index], path[1..]);
      }
    }
  }

  lemma AgreesBelow(proposed: Json, current: Json, step: Step, path: seq<Step>)
    requires Proposes(proposed, [step]) && SameShape(proposed, current) && At(current, [step]).Some?
    requires AgreesAt(proposed, current, [step] + path)
    ensures AgreesAt(At(proposed, [step]).value, At(current, [step]).value, path)
  {
    assert ([step] + path)[1..] == path;
    assert [step][1..] == [];
  }

  lemma {:induction false} AgreesContained(proposed: Json, current: Json)
    requires forall path :: AgreesAt(proposed, current, path)
    ensures ContainsProposal(proposed, current)
    decreases proposed
  {
    assert AgreesAt(proposed, current, []);
    match proposed
    case Obj(fields) =>
      forall name | name in fields ensures ContainsProposal(fields[name], Member(current.fields, name)) {
        assert [Name(name)][1..] == [];
        forall path ensures AgreesAt(fields[name], Member(current.fields, name), path) {
          AgreesBelow(proposed, current, Name(name), path);
        }
        AgreesContained(fields[name], Member(current.fields, name));
      }
    case Arr(items) =>
      forall i | 0 <= i < |items| ensures ContainsProposal(items[i], current.items[i]) {
        assert [Index(i)][1..] == [];
        forall path ensures AgreesAt(items[i], current.items[i], path) {
          AgreesBelow(proposed, current, Index(i), path);
        }
        AgreesContained(items[i], current.items[i]);
      }
    case _ =>
  }

  /** The recursive check is exactly agreement at every path the proposal sets. */
  lemma ContainsIffAgrees(proposed: Json, current: Json)
    ensures ContainsProposal(proposed, current) <==> forall path :: AgreesAt(proposed, current, path)
  {
    if ContainsProposal(proposed, current) {
      forall path ensures AgreesAt(proposed, current, path) { ContainedAgrees(proposed, current, path); }
    } else if forall path :: AgreesAt(proposed, current, path) {
      AgreesContained(proposed, current);
    }
  }
}
