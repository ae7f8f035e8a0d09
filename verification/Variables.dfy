/**
 Substitution of build variables in a Dockerfile or metadata.json within a
 byte limit. The search for unresolved variable references is a parameter.
 */
module Variables {
  import opened Options
  import opened Orders

  /** Non-overlapping occurrences, counted from the left. */
  function Count(s: string, token: string): nat
    requires token != ""
  {
    if s == "" then 0 else if token <= s then 1 + Count(s[|token|..], token) else Count(s[1..], token)
  }

  /** Every counted occurrence replaced. */
  function ReplaceAll(s: string, token: string, value: string): string
    requires token != ""
  {
    if s == "" then ""
    else if token <= s then value + ReplaceAll(s[|token|..], token, value)
    else [s[0]] + ReplaceAll(s[1..], token, value)
  }

  lemma OneMore(count: int, d: int)
    ensures (1 + count) * d == d + count * d
  {
  }

  lemma {:induction false} ReplacedLength(s: string, token: string, value: string)
    requires token != ""
    ensures |ReplaceAll(s, token, value)| == |s| + Count(s, token) * (|value| - |token|)
  {
    if s != "" {
      if token <= s {
        ReplacedLength(s[|token|..], token, value);
        OneMore(Count(s[|token|..], token), |value| - |token|);
      } else {
        ReplacedLength(s[1..], token, value);
      }
    }
  }

  /** Integer division as the machine does it, toward zero. */
  function TruncDiv(a: int, b: int): int
    requires b > 0
  {
    if a >= 0 then a / b else -((-a) / b)
  }

  /** Nothing when the result would be too large. */
  function ReplaceAllBounded(content: string, token: string, value: string, limit: nat): Option<string>
    requires token != ""
  {
    if |value| > |token| && Count(content, token) > TruncDiv(limit - |content|, |value| - |token|) then None
    else Some(ReplaceAll(content, token, value))
  }

  lemma FloorBound(count: nat, room: nat, growth: nat)
    requires growth > 0
    ensures count > room / growth <==> count * growth > room
  {
    var q := room / growth;
    assert room == growth * q + room % growth;
    if count > q {
      ProductGrows(q + 1, count, growth);
      OneMore(q, growth);
    } else {
      ProductGrows(count, q, growth);
    }
  }

  lemma ProductGrows(a: int, b: int, c: nat)
    requires a <= b
    ensures a * c <= b * c
  {
  }

  /** Content within the limit is refused exactly when the real replacement would exceed the limit. */
  lemma RefusedIffTooLarge(content: string, token: string, value: string, limit: nat)
    requires token != "" && |content| <= limit
    ensures ReplaceAllBounded(content, token, value, limit).None? <==> |ReplaceAll(content, token, value)| > limit
  {
    ReplacedLength(content, token, value);
    var count, growth := Count(content, token), |value| - |token|;
    if growth > 0 {
      FloorBound(count, limit - |content|, growth);
    } else {
      assert count * growth <= 0;
    }
  }

  // ---------- all variables in turn ----------

  function BraceToken(key: string): string { "${" + key + "}" }

  function DollarToken(key: string): string { "$" + key }

  function ReplaceKey(content: string, key: string, value: string): string {
    ReplaceAll(ReplaceAll(content, BraceToken(key), value), DollarToken(key), value)
  }

  function Substitute(content: string, keys: seq<string>, vars: map<string, string>): string
    requires forall k <- keys :: k in vars
    decreases |keys|
  {
    if keys == [] then content else Substitute(ReplaceKey(content, keys[0], vars[keys[0]]), keys[1..], vars)
  }

  /** No intermediate result is over the limit. */
  ghost predicate StaysWithin(content: string, keys: seq<string>, vars: map<string, string>, limit: nat)
    requires forall k <- keys :: k in vars
    decreases |keys|
  {
    && |content| <= limit
    && (keys != [] ==>
          var value := vars[keys[0]];
          && |ReplaceAll(content, BraceToken(keys[0]), value)| <= limit
          && StaysWithin(ReplaceKey(content, keys[0], value), keys[1..], vars, limit))
  }

  datatype Refusal = TooLarge | Unresolved(names: seq<string>)

  /**
   `keys` are the variable names in sorted order and `unresolved` the names still
   referenced in a text. The content never exceeds the limit at any point.
   */
  method ReplaceBuildVariables(raw: string, limit: nat, keys: seq<string>, vars: map<string, string>,
        unresolved: string -> seq<string>)
    returns (result: Result<string, Refusal>)
    requires forall k :: k in keys <==> k in vars
    ensures result == Err(TooLarge) <==> !StaysWithin(raw, keys, vars, limit)
    ensures result.Ok? ==> |result.value| <= limit && result.value == Substitute(raw, keys, vars)
    ensures StaysWithin(raw, keys, vars, limit) ==>
              (result.Ok? <==> vars == map[] || forall n <- unresolved(Substitute(raw, keys, vars)) :: n in vars)
    ensures result.Err? && result.error.Unresolved? ==>
              forall n :: n in result.error.names <==> n in unresolved(Substitute(raw, keys, vars)) && n !in vars
  {
    assert |keys| > 0 ==> keys[0] in vars;
    if |raw| > limit {
      return Err(TooLarge);
    }
    if |vars| == 0 {
      return Ok(raw);
    }
    var content := raw;
    var i := 0;
    while i < |keys|
      invariant 0 <= i <= |keys|
      invariant |content| <= limit
      invariant StaysWithin(raw, keys, vars, limit) <==> StaysWithin(content, keys[i..], vars, limit)
      invariant Substitute(raw, keys, vars) == Substitute(content, keys[i..], vars)
    {
      var key := keys[i];
      assert key in keys && keys[i..][0] == key && keys[i..][1..] == keys[i + 1..];
      var value := vars[key];
      RefusedIffTooLarge(content, BraceToken(key), value, limit);
      var braced := ReplaceAllBounded(content, BraceToken(key), value, limit);
      if braced.None? {
        return Err(TooLarge);
      }
      RefusedIffTooLarge(braced.value, DollarToken(key), value, limit);
      var replaced := ReplaceAllBounded(braced.value, DollarToken(key), value, limit);
      if replaced.None? {
        return Err(TooLarge);
      }
      content := replaced.value;
      i := i + 1;
    }
    assert keys[|keys|..] == [];
    var names := unresolved(content);
    var missing: seq<string> := [];
    for j := 0 to |names|
      invariant forall n :: n in missing <==> n in names[..j] && n !in vars
    {
      if names[j] !in vars {
        missing := missing + [names[j]];
      }
    }
    assert names[..|names|] == names;
    if |missing| > 0 {
      assert missing[0] in missing;
      return Err(Unresolved(missing));
    }
    result := Ok(content);
  }

  // ---------- what a reference turns into ----------

  predicate Lacks(s: string, c: char) {
    forall i :: 0 <= i < |s| ==> s[i] != c
  }

  lemma {:induction false} NothingToReplace(s: string, token: string, value: string)
    requires token != "" && Lacks(s, token[0])
    ensures ReplaceAll(s, token, value) == s
  {
    if s != "" {
      NothingToReplace(s[1..], token, value);
    }
  }

  /** A variable name and value that cannot be mistaken for a reference. */
  ghost predicate PlainVars(keys: seq<string>, vars: map<string, string>) {
    forall i :: 0 <= i < |keys| ==>
      keys[i] in vars && keys[i] != "" && Lacks(keys[i], '$') && Lacks(keys[i], '{') && Lacks(vars[keys[i]], '$')
  }

  lemma {:induction false} NoReferenceLeft(s: string, keys: seq<string>, vars: map<string, string>)
    requires PlainVars(keys, vars) && Lacks(s, '$')
    ensures Substitute(s, keys, vars) == s
    decreases |keys|
  {
    if keys != [] {
      NothingToReplace(s, BraceToken(keys[0]), vars[keys[0]]);
      NothingToReplace(s, DollarToken(keys[0]), vars[keys[0]]);
      NoReferenceLeft(s, keys[1..], vars);
    }
  }

  lemma DollarPrefix(key: string, name: string)
    ensures DollarToken(key) <= DollarToken(name) <==> key <= name
  {
    var t, s := DollarToken(key), DollarToken(name);
    assert t[1..] == key && s[1..] == name;
    if t <= s {
      assert t == s[..|t|];
      assert key == name[..|key|];
    }
  }

  /** One key on the text of one reference: it takes the reference exactly when the key is a prefix of the name. */
  lemma OneKey(name: string, key: string, value: string)
    requires name != "" && key != "" && Lacks(name, '$') && Lacks(name, '{')
    ensures ReplaceKey(DollarToken(name), key, value) == if key <= name then value + name[|key|..]
        else DollarToken(name)
  {
    var s := DollarToken(name);
    assert s[0] == '$' && s[1..] == name;
    assert !(BraceToken(key) <= s) by { assert BraceToken(key)[1] == '{' && s[1] == name[0]; }
    NothingToReplace(name, BraceToken(key), value);
    assert ReplaceAll(s, BraceToken(key), value) == s;
    DollarPrefix(key, name);
    if key <= name {
      assert s[|DollarToken(key)|..] == name[|key|..];
      NothingToReplace(name[|key|..], DollarToken(key), value);
    } else {
      NothingToReplace(name, DollarToken(key), value);
    }
  }

  /**
   A reference `$name` becomes the value of the first key, in the order of
   substitution, that is a prefix of the name, followed by the rest of the name.
   */
  lemma {:induction false} FirstPrefixWins(name: string, keys: seq<string>, vars: map<string, string>, i: nat)
    requires name != "" && Lacks(name, '$') && Lacks(name, '{') && PlainVars(keys, vars)
    requires i < |keys| && keys[i] <= name && forall j :: 0 <= j < i ==> !(keys[j] <= name)
    ensures Substitute(DollarToken(name), keys, vars) == vars[keys[i]] + name[|keys[i]|..]
    decreases |keys|
  {
    OneKey(name, keys[0], vars[keys[0]]);
    if i == 0 {
      NoReferenceLeft(vars[keys[0]] + name[|keys[0]|..], keys[1..], vars);
    } else {
      assert !(keys[0] <= name);
      FirstPrefixWins(name, keys[1..], vars, i - 1);
    }
  }

  /** The keys are substituted in ascending order, each once. */
  ghost predicate Ascending(keys: seq<string>) {
    forall i, j :: 0 <= i < j < |keys| ==> Less(keys[i], keys[j])
  }

  /**
   In ascending order the first key that is a prefix of a name is the shortest one: a reference gets the value of the
   shortest key that is a prefix of its name, its own value only if no shorter key is one.
   */
  lemma ShortestPrefixWins(name: string, keys: seq<string>, vars: map<string, string>, i: nat)
    requires name != "" && Lacks(name, '$') && Lacks(name, '{') && PlainVars(keys, vars) && Ascending(keys)
    requires i < |keys| && keys[i] <= name
    requires forall j :: 0 <= j < |keys| && keys[j] <= name ==> |keys[i]| <= |keys[j]|
    ensures Substitute(DollarToken(name), keys, vars) == vars[keys[i]] + name[|keys[i]|..]
  {
    forall j | 0 <= j < i ensures !(keys[j] <= name) {
      if keys[j] <= name {
        assert keys[i] == name[..|keys[i]|] && keys[j] == name[..|keys[j]|];
        assert keys[i] == keys[j][..|keys[i]|];
        PrefixNotAfter(keys[i], keys[j]);
        assert false;
      }
    }
    FirstPrefixWins(name, keys, vars, i);
  }

  /** With no key a prefix of the name the reference stays. */
  lemma {:induction false} UnknownReferenceStays(name: string, keys: seq<string>, vars: map<string, string>)
    requires name != "" && Lacks(name, '$') && Lacks(name, '{') && PlainVars(keys, vars)
    requires forall j :: 0 <= j < |keys| ==> !(keys[j] <= name)
    ensures Substitute(DollarToken(name), keys, vars) == DollarToken(name)
    decreases |keys|
  {
    if keys != [] {
      OneKey(name, keys[0], vars[keys[0]]);
      UnknownReferenceStays(name, keys[1..], vars);
    }
  }

  /** With variables KOVA_A and KOVA_AB, a reference to the second becomes the first's value and a "B". */
  lemma ShorterNameCaptures(a: string, ab: string)
    requires Lacks(a, '$') && Lacks(ab, '$')
    ensures Substitute("$KOVA_AB", ["KOVA_A", "KOVA_AB"], map["KOVA_A" := a, "KOVA_AB" := ab]) == a + "B"
  {
    var keys := ["KOVA_A", "KOVA_AB"];
    assert "KOVA_AB"[|"KOVA_A"|..] == "B";
    assert DollarToken("KOVA_AB") == "$KOVA_AB";
    FirstPrefixWins("KOVA_AB", keys, map["KOVA_A" := a, "KOVA_AB" := ab], 0);
  }

  /** A reference in braces to a known name becomes its value. */
  lemma BracedReference(name: string, value: string)
    requires name != "" && Lacks(name, '$') && Lacks(value, '$')
    ensures Substitute("${" + name + "}", [name], map[name := value]) == value
  {
    var s, keys, vars := "${" + name + "}", [name], map[name := value];
    assert BraceToken(name) == s && s[|s|..] == "" && value + "" == value;
    assert ReplaceAll(s, BraceToken(name), value) == value;
    NothingToReplace(value, DollarToken(name), value);
    assert keys[1..] == [];
    assert Substitute(s, keys, vars) == Substitute(ReplaceKey(s, name, vars[name]), keys[1..], vars);
  }

  // ---------- whole texts ----------

  /** A stretch of text: plain, a reference with what follows it up to the next item, or a reference in braces. */
  datatype Item = Plain(text: string) | Dollar(name: string) | Braced(name: string)

  function RenderItem(item: Item): string {
    match item
    case Plain(text) => text
    case Dollar(name) => DollarToken(name)
    case Braced(name) => BraceToken(name)
  }

  function Render(items: seq<Item>): string {
    if items == [] then "" else RenderItem(items[0]) + Render(items[1..])
  }

  predicate NoMarks(s: string) {
    s != "" && Lacks(s, '$') && Lacks(s, '{') && Lacks(s, '}')
  }

  predicate ItemOk(item: Item) {
    if item.Plain? then Lacks(item.text, '$')
    else if item.Dollar? then item.name != "" && Lacks(item.name, '$') && Lacks(item.name, '{')
    else NoMarks(item.name)
  }

  function BraceStep(item: Item, key: string, value: string): Item {
    if item == Braced(key) then Plain(value) else item
  }

  function DollarStep(item: Item, key: string, value: string): Item {
    if item.Dollar? && key <= item.name then Plain(value + item.name[|key|..]) else item
  }

  function BraceAll(items: seq<Item>, key: string, value: string): (r: seq<Item>)
    ensures |r| == |items| && forall i :: 0 <= i < |items| ==> r[i] == BraceStep(items[i], key, value)
  {
    seq(|items|, i requires 0 <= i < |items| => BraceStep(items[i], key, value))
  }

  function DollarAll(items: seq<Item>, key: string, value: string): (r: seq<Item>)
    ensures |r| == |items| && forall i :: 0 <= i < |items| ==> r[i] == DollarStep(items[i], key, value)
  {
    seq(|items|, i requires 0 <= i < |items| => DollarStep(items[i], key, value))
  }

  /** The key does not run on from a shorter reference into the text after it. */
  predicate Apart(item: Item, key: string) {
    item.Dollar? && item.name <= key ==> key == item.name
  }

  /** Text without the mark that begins a token is passed over. */
  lemma {:induction false} SkipText(a: string, rest: string, token: string, value: string)
    requires token != "" && Lacks(a, token[0])
    ensures ReplaceAll(a + rest, token, value) == a + ReplaceAll(rest, token, value)
  {
    if a == "" {
      assert a + rest == rest;
    } else {
      SkipText(a[1..], rest, token, value);
      var s := a + rest;
      assert s[0] == a[0] && s[1..] == a[1..] + rest;
      assert token[..1] != s[..1];
      assert !(token <= s);
      assert [a[0]] + (a[1..] + ReplaceAll(rest, token, value)) == a + ReplaceAll(rest, token, value);
    }
  }

  /** A token found at the front is replaced, and the text after it treated on its own. */
  lemma TakeToken(rest: string, token: string, value: string)
    requires token != ""
    ensures ReplaceAll(token + rest, token, value) == value + ReplaceAll(rest, token, value)
  {
    var s := token + rest;
    assert token <= s && s[|token|..] == rest;
  }

  /** A mark at the front that begins no token is passed over with the text that follows. */
  lemma SkipMark(a: string, rest: string, token: string, value: string)
    requires token != "" && token[0] == '$' && Lacks(a, '$') && !(token <= "$" + a + rest)
    ensures ReplaceAll("$" + a + rest, token, value) == "$" + a + ReplaceAll(rest, token, value)
  {
    var s := "$" + a + rest;
    assert s[0] == '$' && s[1..] == a + rest;
    SkipText(a, rest, token, value);
    assert ['$'] + (a + ReplaceAll(rest, token, value)) == "$" + a + ReplaceAll(rest, token, value);
  }

  /** The brace token begins a text that starts with a mark exactly when that text starts with the same braces. */
  lemma BraceAt(item: Item, rest: string, key: string)
    requires ItemOk(item) && !item.Plain? && NoMarks(key)
    ensures BraceToken(key) <= RenderItem(item) + rest <==> item == Braced(key)
  {
    var t, s := BraceToken(key), RenderItem(item) + rest;
    if item.Dollar? {
      assert t[1] == '{' && s[1] == item.name[0];
    } else {
      var n := item.name;
      assert t == "${" + key + "}" && s == "${" + n + "}" + rest;
      assert forall i :: 0 <= i < |key| ==> t[i + 2] == key[i];
      assert forall i :: 0 <= i < |n| ==> s[i + 2] == n[i];
      assert t[|key| + 2] == '}' && s[|n| + 2] == '}';
      if t <= s {
        assert forall i :: 0 <= i < |t| ==> t[i] == s[i];
        BracesAgree(key, n, t, s);
      }
    }
  }

  lemma BracesAgree(key: string, n: string, t: string, s: string)
    requires NoMarks(key) && NoMarks(n) && |t| == |key| + 3 && |s| >= |n| + 3
    requires forall i :: 0 <= i < |key| ==> t[i + 2] == key[i]
    requires forall i :: 0 <= i < |n| ==> s[i + 2] == n[i]
    requires t[|key| + 2] == '}' && s[|n| + 2] == '}'
    requires |t| <= |s| && forall i :: 0 <= i < |t| ==> t[i] == s[i]
    ensures key == n
  {
    assert forall i | 2 <= i < |n| + 2 :: s[i] != '}' by {
      forall i | 2 <= i < |n| + 2 ensures s[i] != '}' { assert s[i] == n[i - 2]; }
    }
    assert forall i | 2 <= i < |key| + 2 :: t[i] != '}' by {
      forall i | 2 <= i < |key| + 2 ensures t[i] != '}' { assert t[i] == key[i - 2]; }
    }
    assert s[|key| + 2] == '}';
    assert |key| == |n|;
    forall i | 0 <= i < |key| ensures key[i] == n[i] { assert t[i + 2] == s[i + 2]; }
  }

  lemma PrefixOfConcat(key: string, n: string, rest: string)
    ensures key <= n ==> key <= n + rest
    ensures key <= n + rest ==> key <= n || n <= key
  {
    if key <= n + rest {
      assert key == (n + rest)[..|key|];
      assert |n| <= |key| ==> n == key[..|n|];
      assert |key| <= |n| ==> key == n[..|key|];
    }
  }

  /** The bare token begins a reference exactly when the key is a prefix of its name. */
  lemma DollarAt(item: Item, rest: string, key: string)
    requires ItemOk(item) && !item.Plain? && NoMarks(key) && Apart(item, key)
    ensures DollarToken(key) <= RenderItem(item) + rest <==> item.Dollar? && key <= item.name
  {
    var t, s := DollarToken(key), RenderItem(item) + rest;
    if item.Braced? {
      assert s[1] == '{' && t[1] == key[0];
    } else {
      assert s == DollarToken(item.name + rest);
      DollarPrefix(key, item.name + rest);
      PrefixOfConcat(key, item.name, rest);
    }
  }

  ghost predicate AllOk(items: seq<Item>) {
    forall i :: 0 <= i < |items| ==> ItemOk(items[i])
  }

  ghost predicate AllApart(items: seq<Item>, key: string) {
    forall i :: 0 <= i < |items| ==> Apart(items[i], key)
  }

  /** What follows the mark of a reference. */
  function AfterMark(item: Item): (a: string)
    requires !item.Plain? && ItemOk(item)
    ensures RenderItem(item) == "$" + a && Lacks(a, '$')
  {
    if item.Dollar? then item.name
    else
      assert "$" + ("{" + item.name + "}") == BraceToken(item.name);
      "{" + item.name + "}"
  }

  lemma {:induction false} BracesReplaced(items: seq<Item>, key: string, value: string)
    requires AllOk(items) && NoMarks(key)
    ensures ReplaceAll(Render(items), BraceToken(key), value) == Render(BraceAll(items, key, value))
    decreases |items|
  {
    if items != [] {
      var item, rest, token := items[0], Render(items[1..]), BraceToken(key);
      BracesReplaced(items[1..], key, value);
      assert BraceAll(items, key, value)[1..] == BraceAll(items[1..], key, value);
      if item.Plain? {
        SkipText(item.text, rest, token, value);
      } else {
        BraceAt(item, rest, key);
        if item == Braced(key) {
          TakeToken(rest, token, value);
        } else {
          SkipMark(AfterMark(item), rest, token, value);
        }
      }
    }
  }

  lemma DollarTaken(name: string, rest: string, key: string, value: string)
    requires NoMarks(key) && Lacks(name, '$') && key <= name
    ensures ReplaceAll(DollarToken(name) + rest, DollarToken(key), value) ==
            value + name[|key|..] + ReplaceAll(rest, DollarToken(key), value)
  {
    var tail := name[|key|..];
    assert DollarToken(name) + rest == DollarToken(key) + (tail + rest) by { assert name == key + tail; }
    TakeToken(tail + rest, DollarToken(key), value);
    SkipText(tail, rest, DollarToken(key), value);
  }

  lemma {:induction false} DollarsReplaced(items: seq<Item>, key: string, value: string)
    requires AllOk(items) && AllApart(items, key) && NoMarks(key)
    ensures ReplaceAll(Render(items), DollarToken(key), value) == Render(DollarAll(items, key, value))
    decreases |items|
  {
    if items != [] {
      var item, rest, token := items[0], Render(items[1..]), DollarToken(key);
      DollarsReplaced(items[1..], key, value);
      assert DollarAll(items, key, value)[1..] == DollarAll(items[1..], key, value);
      if item.Plain? {
        SkipText(item.text, rest, token, value);
      } else {
        DollarAt(item, rest, key);
        if item.Dollar? && key <= item.name {
          DollarTaken(item.name, rest, key, value);
        } else {
          SkipMark(AfterMark(item), rest, token, value);
        }
      }
    }
  }

  function StepAll(items: seq<Item>, key: string, value: string): seq<Item> {
    DollarAll(BraceAll(items, key, value), key, value)
  }

  /** One key on a whole text replaces item by item. */
  lemma KeyReplaced(items: seq<Item>, key: string, value: string)
    requires AllOk(items) && AllApart(items, key) && NoMarks(key) && Lacks(value, '$')
    ensures ReplaceKey(Render(items), key, value) == Render(StepAll(items, key, value))
    ensures AllOk(StepAll(items, key, value))
  {
    BracesReplaced(items, key, value);
    DollarsReplaced(BraceAll(items, key, value), key, value);
  }

  /** What an item becomes in the end: for a bare reference the first key that is a prefix of its name decides. */
  function Resolved(item: Item, keys: seq<string>, vars: map<string, string>): Item
    requires forall k <- keys :: k in vars
  {
    match item
    case Plain(_) => item
    case Braced(name) => if name in keys then Plain(vars[name]) else item
    case Dollar(name) =>
      if keys == [] then item
      else if keys[0] <= name then Plain(vars[keys[0]] + name[|keys[0]|..])
      else Resolved(item, keys[1..], vars)
  }

  function ResolvedAll(items: seq<Item>, keys: seq<string>, vars: map<string, string>): (r: seq<Item>)
    requires forall k <- keys :: k in vars
    ensures |r| == |items| && forall i :: 0 <= i < |items| ==> r[i] == Resolved(items[i], keys, vars)
  {
    seq(|items|, i requires 0 <= i < |items| => Resolved(items[i], keys, vars))
  }

  ghost predicate PlainKeys(keys: seq<string>, vars: map<string, string>) {
    forall i :: 0 <= i < |keys| ==> keys[i] in vars && NoMarks(keys[i]) && Lacks(vars[keys[i]], '$')
  }

  /** Some key is a prefix of the name. */
  ghost predicate HasKey(name: string, keys: seq<string>) {
    exists i :: 0 <= i < |keys| && keys[i] <= name
  }

  ghost predicate AllHaveKeys(items: seq<Item>, keys: seq<string>) {
    forall i :: 0 <= i < |items| && items[i].Dollar? ==> HasKey(items[i].name, keys)
  }

  /** The least key never runs on from a reference that some key is a prefix of. */
  lemma LeastIsApart(item: Item, keys: seq<string>)
    requires keys != [] && Ascending(keys) && (item.Dollar? ==> HasKey(item.name, keys))
    ensures Apart(item, keys[0])
  {
    if item.Dollar? && item.name <= keys[0] {
      var i :| 0 <= i < |keys| && keys[i] <= item.name;
      assert keys[i] <= keys[0];
      PrefixNotAfter(keys[i], keys[0]);
      assert i == 0;
    }
  }

  lemma StepResolves(item: Item, keys: seq<string>, vars: map<string, string>)
    requires keys != [] && forall k <- keys :: k in vars
    ensures var next := DollarStep(BraceStep(item, keys[0], vars[keys[0]]), keys[0], vars[keys[0]]);
            Resolved(next, keys[1..], vars) == Resolved(item, keys, vars)
    ensures var next := DollarStep(BraceStep(item, keys[0], vars[keys[0]]), keys[0], vars[keys[0]]);
            next.Dollar? && HasKey(next.name, keys) ==> HasKey(next.name, keys[1..])
  {
    assert keys == [keys[0]] + keys[1..];
    if item.Dollar? && !(keys[0] <= item.name) && HasKey(item.name, keys) {
      var i :| 0 <= i < |keys| && keys[i] <= item.name;
      assert keys[1..][i - 1] == keys[i];
    }
  }

  lemma StepAllResolves(items: seq<Item>, keys: seq<string>, vars: map<string, string>)
    requires keys != [] && (forall k <- keys :: k in vars) && AllHaveKeys(items, keys)
    ensures var next := StepAll(items, keys[0], vars[keys[0]]);
            AllHaveKeys(next, keys[1..]) && ResolvedAll(next, keys[1..], vars) == ResolvedAll(items, keys, vars)
  {
    forall i | 0 <= i < |items|
      ensures var next := StepAll(items, keys[0], vars[keys[0]])[i];
              && Resolved(next, keys[1..], vars) == Resolved(items[i], keys, vars)
              && (next.Dollar? ==> HasKey(next.name, keys[1..]))
    {
      StepResolves(items[i], keys, vars);
    }
  }

  /**
   A whole text, with any number of references of both kinds: if the keys are substituted in ascending order, no value
   holds a mark and every bare reference has a key that is a prefix of its name, each item is replaced on its own.
   */
  lemma {:induction false} WholeTextResolves(items: seq<Item>, keys: seq<string>, vars: map<string, string>)
    requires AllOk(items) && PlainKeys(keys, vars) && Ascending(keys) && AllHaveKeys(items, keys)
    ensures Substitute(Render(items), keys, vars) == Render(ResolvedAll(items, keys, vars))
    decreases |keys|
  {
    if keys == [] {
      assert ResolvedAll(items, keys, vars) == items;
    } else {
      var key, value := keys[0], vars[keys[0]];
      forall i | 0 <= i < |items| ensures Apart(items[i], key) { LeastIsApart(items[i], keys); }
      KeyReplaced(items, key, value);
      StepAllResolves(items, keys, vars);
      WholeTextResolves(StepAll(items, key, value), keys[1..], vars);
    }
  }

  /** The key that decides a bare reference is the shortest that is a prefix of its name. */
  lemma {:induction false} ResolvedByShortest(name: string, keys: seq<string>, vars: map<string, string>, i: nat)
    requires (forall k <- keys :: k in vars) && Ascending(keys) && i < |keys| && keys[i] <= name
    requires forall j :: 0 <= j < |keys| && keys[j] <= name ==> |keys[i]| <= |keys[j]|
    ensures Resolved(Dollar(name), keys, vars) == Plain(vars[keys[i]] + name[|keys[i]|..])
    decreases |keys|
  {
    if i > 0 {
      assert !(keys[0] <= name) by {
        if keys[0] <= name {
          assert keys[i] <= keys[0];
          PrefixNotAfter(keys[i], keys[0]);
        }
      }
      ResolvedByShortest(name, keys[1..], vars, i - 1);
    }
  }

  lemma SubstituteTwo(content: string, j: string, k: string, vars: map<string, string>)
    requires j in vars && k in vars
    ensures Substitute(content, [j, k], vars) == ReplaceKey(ReplaceKey(content, j, vars[j]), k, vars[k])
  {
    var both, one := [j, k], [k];
    assert both[1..] == one && |one[1..]| == 0;
    assert Substitute(content, both, vars) == Substitute(ReplaceKey(content, j, vars[j]), one, vars);
  }

  lemma RenderTwo(a: Item, b: Item)
    ensures Render([a, b]) == RenderItem(a) + RenderItem(b)
  {
    assert [a, b][1..] == [b] && [b][1..] == [];
    assert Render([b]) == RenderItem(b) + "";
  }

  lemma NeighbourStep(c: string, b: string, y: string)
    requires NoMarks(c) && NoMarks(b) && !(b <= c) && !(c <= b)
    ensures AllOk([Dollar(c), Dollar(b)]) && AllApart([Dollar(c), Dollar(b)], b)
    ensures StepAll([Dollar(c), Dollar(b)], b, y) == [Dollar(c), Plain(y)]
  {
    assert b[|b|..] == "" && y + "" == y;
  }

  lemma NeighbourTexts(c: string, b: string, y: string)
    ensures Render([Dollar(c), Dollar(b)]) == DollarToken(c) + DollarToken(b)
    ensures Render([Dollar(c), Plain(y)]) == DollarToken(c + y)
  {
    RenderTwo(Dollar(c), Dollar(b));
    RenderTwo(Dollar(c), Plain(y));
    assert DollarToken(c) + y == DollarToken(c + y);
  }

  lemma NeighbourFirst(c: string, b: string, y: string)
    requires NoMarks(c) && NoMarks(b) && NoMarks(y) && !(b <= c) && !(c <= b)
    ensures ReplaceKey(DollarToken(c) + DollarToken(b), b, y) == DollarToken(c + y)
  {
    NeighbourStep(c, b, y);
    NeighbourTexts(c, b, y);
    KeyReplaced([Dollar(c), Dollar(b)], b, y);
  }

  lemma KeyItself(k: string, z: string)
    requires NoMarks(k)
    ensures ReplaceKey(DollarToken(k), k, z) == z
  {
    OneKey(k, k, z);
    assert k[|k|..] == "" && z + "" == z;
  }

  /**
   Without a key for a reference the items are not independent: `$c$b` becomes `$cy` when b has the value y, and a key
   that is c and y together then takes it.
   */
  lemma NeighbourCompletesName(c: string, b: string, y: string, z: string, vars: map<string, string>)
    requires NoMarks(c) && NoMarks(b) && NoMarks(y) && Lacks(z, '$') && !(b <= c) && !(c <= b)
    requires b in vars && c + y in vars && vars[b] == y && vars[c + y] == z
    ensures Substitute(DollarToken(c) + DollarToken(b), [b, c + y], vars) == z
  {
    NeighbourFirst(c, b, y);
    KeyItself(c + y, z);
    SubstituteTwo(DollarToken(c) + DollarToken(b), b, c + y, vars);
  }
}
