/** Orders and sorting shared by several modules. */
module Orders {
  function Max(x: int, y: int): int { if x > y then x else y }

  function Min(x: int, y: int): int { if x < y then x else y }

  /** Strings compared character by character, a prefix before what extends it. */
  predicate Less(a: string, b: string) {
    b != [] && (a == [] || a[0] < b[0] || (a[0] == b[0] && Less(a[1..], b[1..])))
  }

  lemma LessAsymmetric(a: string, b: string)
    requires Less(a, b)
    ensures !Less(b, a)
  {
  }

  lemma {:induction false} PrefixNotAfter(a: string, b: string)
    requires a <= b
    ensures !Less(b, a)
  {
    if a != [] { PrefixNotAfter(a[1..], b[1..]); }
  }

  /** No element is below the one before it. */
  ghost predicate Ordered<T>(s: seq<T>, below: (T, T) -> bool) {
    forall i :: 0 < i < |s| ==> !below(s[i], s[i - 1])
  }

  ghost predicate Asymmetric<T>(s: seq<T>, below: (T, T) -> bool) {
    forall x, y | x in s && y in s :: below(x, y) ==> !below(y, x)
  }

  function Insert<T>(s: seq<T>, x: T, below: (T, T) -> bool): (r: seq<T>)
    requires Ordered(s, below) && forall y <- s :: below(y, x) ==> !below(x, y)
    ensures Ordered(r, below) && multiset(r) == multiset(s) + multiset{x}
    ensures r[0] == x || (s != [] && r[0] == s[0])
  {
    if s == [] || !below(s[0], x) then [x] + s
    else
      assert s == [s[0]] + s[1..];
      [s[0]] + Insert(s[1..], x, below)
  }

  /** Stands for the library sort, which promises no more than this. */
  method Sort<T>(s: seq<T>, below: (T, T) -> bool) returns (r: seq<T>)
    requires Asymmetric(s, below)
    ensures Ordered(r, below) && multiset(r) == multiset(s)
  {
    r := [];
    for n := 0 to |s|
      invariant Ordered(r, below) && multiset(r) == multiset(s[..n])
    {
      assert s[..n + 1] == s[..n] + [s[n]];
      forall y | y in r ensures y in s { assert y in multiset(r); }
      r := Insert(r, s[n], below);
    }
    assert s[..|s|] == s;
  }
}
