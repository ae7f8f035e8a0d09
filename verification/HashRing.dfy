/**
 The consistent-hash ring that orders the BuildKit addresses for a build key.
 The hash of a virtual node and of a key are parameters; colliding virtual
 nodes overwrite each other's owner, as they do in the ring's map.
 */
module HashRing {
  import opened Orders
  import opened Sets

  datatype Ring = Ring(points: seq<nat>, owner: map<nat, nat>, nodes: nat)

  ghost predicate Sorted(s: seq<nat>) {
    forall i :: 0 < i < |s| ==> s[i - 1] <= s[i]
  }

  ghost predicate WellFormed(ring: Ring) {
    && Sorted(ring.points)
    && forall p <- ring.points :: p in ring.owner && ring.owner[p] < ring.nodes
  }

  /** Every node still owns a point of the ring after collisions. */
  ghost predicate Covered(ring: Ring)
    requires WellFormed(ring)
  {
    forall n: nat | n < ring.nodes :: Owns(ring, n)
  }

  ghost predicate Owns(ring: Ring, n: nat)
    requires WellFormed(ring)
  {
    exists p <- ring.points :: ring.owner[p] == n
  }

  // ---------- building the ring ----------

  /** Virtual node `r` of node `i`, for every node and replica below the bounds. */
  ghost predicate Hit(hash: (nat, nat) -> nat, nodes: nat, replicas: nat, i: nat, r: nat, p: nat) {
    i < nodes && r < replicas && hash(i, r) == p
  }

  /** A node keeps a point when one of its hashes is not taken again by a later node. */
  ghost predicate KeepsPoint(hash: (nat, nat) -> nat, nodes: nat, replicas: nat, n: nat) {
    exists r: nat :: r < replicas && Unclaimed(hash, nodes, replicas, n, hash(n, r))
  }

  ghost predicate Unclaimed(hash: (nat, nat) -> nat, nodes: nat, replicas: nat, n: nat, p: nat) {
    forall i: nat, r: nat :: Hit(hash, nodes, replicas, i, r, p) ==> i <= n
  }

  /** Replica `q` of node `j` comes before replica `r` of node `i`. */
  predicate Before(replicas: nat, i: nat, r: nat, j: nat, q: nat) {
    (j < i && q < replicas) || (j == i && q < r)
  }

  ghost predicate OwnerHit(hash: (nat, nat) -> nat, replicas: nat, i: nat, r: nat, j: nat, p: nat) {
    exists q: nat :: Before(replicas, i, r, j, q) && hash(j, q) == p
  }

  /** `points` and `owner` after the virtual nodes before replica `r` of node `i` were placed. */
  ghost predicate Placed(hash: (nat, nat) -> nat, replicas: nat, points: seq<nat>, owner: map<nat, nat>, i: nat,
        r: nat) {
    && (forall p :: p in points <==> p in owner)
    && (forall p <- owner :: OwnerHit(hash, replicas, i, r, owner[p], p))
    && (forall j: nat, q: nat | Before(replicas, i, r, j, q) :: hash(j, q) in owner && j <= owner[hash(j, q)])
  }

  lemma PlaceOne(hash: (nat, nat) -> nat, replicas: nat, points: seq<nat>, owner: map<nat, nat>, i: nat, r: nat)
    requires r < replicas && Placed(hash, replicas, points, owner, i, r)
    ensures Placed(hash, replicas, points + [hash(i, r)], owner[hash(i, r) := i], i, r + 1)
  {
    var h := hash(i, r);
    var owner2 := owner[h := i];
    forall p <- owner2 ensures OwnerHit(hash, replicas, i, r + 1, owner2[p], p) {
      if p == h {
        assert Before(replicas, i, r + 1, i, r);
      } else {
        var q: nat :| Before(replicas, i, r, owner[p], q) && hash(owner[p], q) == p;
        assert Before(replicas, i, r + 1, owner[p], q);
      }
    }
    forall j: nat, q: nat | Before(replicas, i, r + 1, j, q) ensures hash(j, q) in owner2 && j <= owner2[hash(j, q)] {
      assert (j == i && q == r) || Before(replicas, i, r, j, q);
    }
  }

  lemma NextNode(hash: (nat, nat) -> nat, replicas: nat, points: seq<nat>, owner: map<nat, nat>, i: nat)
    requires Placed(hash, replicas, points, owner, i, replicas)
    ensures Placed(hash, replicas, points, owner, i + 1, 0)
  {
    assert forall j: nat, q: nat :: Before(replicas, i + 1, 0, j, q) <==> Before(replicas, i, replicas, j, q);
    forall p <- owner ensures OwnerHit(hash, replicas, i + 1, 0, owner[p], p) {
      var q: nat :| Before(replicas, i, replicas, owner[p], q) && hash(owner[p], q) == p;
      assert Before(replicas, i + 1, 0, owner[p], q);
    }
  }

  /** The inner loop: the replicas of node `i`. */
  method PlaceNode(before: seq<nat>, owned: map<nat, nat>, i: nat, replicas: nat, hash: (nat, nat) -> nat)
    returns (points: seq<nat>, owner: map<nat, nat>)
    requires Placed(hash, replicas, before, owned, i, 0)
    ensures Placed(hash, replicas, points, owner, i + 1, 0) && |points| == |before| + replicas
  {
    points, owner := before, owned;
    for r := 0 to replicas
      invariant Placed(hash, replicas, points, owner, i, r)
      invariant |points| == |before| + r
    {
      PlaceOne(hash, replicas, points, owner, i, r);
      points := points + [hash(i, r)];
      owner := owner[hash(i, r) := i];
    }
    NextNode(hash, replicas, points, owner, i);
  }

  /** The outer loop over the nodes. */
  method PlaceAll(nodes: nat, replicas: nat, hash: (nat, nat) -> nat) returns (points: seq<nat>, owner: map<nat, nat>)
    ensures Placed(hash, replicas, points, owner, nodes, 0)
    ensures points == [] <==> nodes == 0 || replicas == 0
  {
    points, owner := [], map[];
    for i := 0 to nodes
      invariant Placed(hash, replicas, points, owner, i, 0)
      invariant points == [] <==> i == 0 || replicas == 0
    {
      points, owner := PlaceNode(points, owner, i, replicas, hash);
    }
  }

  ghost predicate SomeHit(hash: (nat, nat) -> nat, nodes: nat, replicas: nat, p: nat) {
    exists i: nat, r: nat :: Hit(hash, nodes, replicas, i, r, p)
  }

  ghost predicate OwnHit(hash: (nat, nat) -> nat, nodes: nat, replicas: nat, i: nat, p: nat) {
    exists r: nat :: Hit(hash, nodes, replicas, i, r, p)
  }

  /** The points are exactly the hashes of the virtual nodes, each owned by the last node that hashes to it. */
  ghost predicate RingOf(ring: Ring, hash: (nat, nat) -> nat, nodes: nat, replicas: nat)
    requires WellFormed(ring)
  {
    && ring.nodes == nodes
    && (forall p: nat :: p in ring.points <==> SomeHit(hash, nodes, replicas, p))
    && (forall p <- ring.points ::
          OwnHit(hash, nodes, replicas, ring.owner[p], p) && Unclaimed(hash, nodes, replicas, ring.owner[p], p))
  }

  lemma PlacedIsRing(ring: Ring, points: seq<nat>, replicas: nat, hash: (nat, nat) -> nat)
    requires WellFormed(ring) && (forall p :: p in ring.points <==> p in points)
    requires Placed(hash, replicas, points, ring.owner, ring.nodes, 0)
    ensures RingOf(ring, hash, ring.nodes, replicas)
  {
    forall p <- ring.points
      ensures SomeHit(hash, ring.nodes, replicas, p) && OwnHit(hash, ring.nodes, replicas, ring.owner[p], p)
      ensures Unclaimed(hash, ring.nodes, replicas, ring.owner[p], p)
    {
      var q: nat :| Before(replicas, ring.nodes, 0, ring.owner[p], q) && hash(ring.owner[p], q) == p;
      assert Hit(hash, ring.nodes, replicas, ring.owner[p], q, p);
      forall i: nat, r: nat | Hit(hash, ring.nodes, replicas, i, r, p) ensures i <= ring.owner[p] {
        assert Before(replicas, ring.nodes, 0, i, r);
      }
    }
    forall p: nat | SomeHit(hash, ring.nodes, replicas, p) ensures p in ring.points {
      var i: nat, r: nat :| Hit(hash, ring.nodes, replicas, i, r, p);
      assert Before(replicas, ring.nodes, 0, i, r);
    }
  }

  /**
   The ring of `nodes` nodes: the hashes of their replicas in order, each owned by the last node to hash to it. It is
   covered exactly when every node keeps a point.
   */
  method NewConsistentHash(nodes: nat, replicas: nat, hash: (nat, nat) -> nat) returns (ring: Ring)
    ensures WellFormed(ring) && RingOf(ring, hash, nodes, replicas)
    ensures ring.points == [] <==> nodes == 0 || replicas == 0
    ensures Covered(ring) <==> forall n: nat | n < nodes :: KeepsPoint(hash, nodes, replicas, n)
  {
    var points, owner := PlaceAll(nodes, replicas, hash);
    var sorted := Sort(points, (a: nat, b: nat) => a < b);
    assert |sorted| == |multiset(sorted)| == |points|;
    forall p | p in sorted ensures p in points { assert p in multiset(sorted); }
    forall p | p in points ensures p in sorted { assert p in multiset(points); }
    forall p | p in owner ensures owner[p] < nodes {
      var q: nat :| Before(replicas, nodes, 0, owner[p], q) && hash(owner[p], q) == p;
    }
    ring := Ring(sorted, owner, nodes);
    PlacedIsRing(ring, points, replicas, hash);
    RingCovered(ring, points, replicas, hash);
  }

  lemma RingCovered(ring: Ring, points: seq<nat>, replicas: nat, hash: (nat, nat) -> nat)
    requires WellFormed(ring) && (forall p :: p in ring.points <==> p in points)
    requires Placed(hash, replicas, points, ring.owner, ring.nodes, 0)
    ensures forall n: nat | n < ring.nodes :: Owns(ring, n) <==> KeepsPoint(hash, ring.nodes, replicas, n)
  {
    forall n: nat | n < ring.nodes ensures Owns(ring, n) <==> KeepsPoint(hash, ring.nodes, replicas, n) {
      if Owns(ring, n) {
        var p :| p in ring.points && ring.owner[p] == n;
        var r: nat :| Before(replicas, ring.nodes, 0, n, r) && hash(n, r) == p;
        forall i: nat, q: nat | Hit(hash, ring.nodes, replicas, i, q, p) ensures i <= n {
          assert Before(replicas, ring.nodes, 0, i, q);
        }
        assert r < replicas && Unclaimed(hash, ring.nodes, replicas, n, hash(n, r));
      }
      if KeepsPoint(hash, ring.nodes, replicas, n) {
        var r: nat :| r < replicas && Unclaimed(hash, ring.nodes, replicas, n, hash(n, r));
        var p := hash(n, r);
        assert Before(replicas, ring.nodes, 0, n, r);
        var q: nat :| Before(replicas, ring.nodes, 0, ring.owner[p], q) && hash(ring.owner[p], q) == p;
        assert Hit(hash, ring.nodes, replicas, ring.owner[p], q, p);
        assert p in ring.points;
      }
    }
  }

  // ---------- the preference order of a key ----------

  /** The owner met `k` steps clockwise from the start. */
  function OwnerAt(ring: Ring, start: nat, k: nat): nat
    requires WellFormed(ring) && ring.points != []
  {
    ring.owner[ring.points[(start + k) % |ring.points|]]
  }

  ghost predicate Met(ring: Ring, start: nat, k: nat, n: nat)
    requires WellFormed(ring) && ring.points != []
  {
    exists j: nat :: j < k && OwnerAt(ring, start, j) == n
  }

  ghost predicate Distinct(s: seq<nat>) {
    forall i, j :: 0 <= i < j < |s| ==> s[i] != s[j]
  }

  /** The distinct owners met in the first `k` steps, in the order they are met. */
  function Walk(ring: Ring, start: nat, k: nat): (order: seq<nat>)
    requires WellFormed(ring) && ring.points != []
  {
    if k == 0 then []
    else
      var before := Walk(ring, start, k - 1);
      var n := OwnerAt(ring, start, k - 1);
      if n in before then before else before + [n]
  }

  lemma {:induction false} WalkMeets(ring: Ring, start: nat, k: nat)
    requires WellFormed(ring) && ring.points != []
    ensures Distinct(Walk(ring, start, k))
    ensures forall n: nat :: n in Walk(ring, start, k) <==> Met(ring, start, k, n)
    ensures forall n <- Walk(ring, start, k) :: n < ring.nodes
  {
    if k > 0 {
      WalkMeets(ring, start, k - 1);
      var last := OwnerAt(ring, start, k - 1);
      assert Met(ring, start, k, last);
      forall n: nat ensures Met(ring, start, k, n) <==> Met(ring, start, k - 1, n) || n == last {
        if Met(ring, start, k - 1, n) {
          var j: nat :| j < k - 1 && OwnerAt(ring, start, j) == n;
          assert OwnerAt(ring, start, j) == n;
        }
      }
    }
  }

  ghost function Elements(s: seq<nat>): set<nat> {
    set x | x in s
  }

  ghost function Below(n: nat): (r: set<nat>)
    ensures forall i: nat :: i in r <==> i < n
    ensures |r| == n
  {
    if n == 0 then {} else Below(n - 1) + {n - 1}
  }

  lemma {:induction false} DistinctSize(s: seq<nat>)
    requires Distinct(s)
    ensures |Elements(s)| == |s|
  {
    if s != [] {
      var init := s[..|s| - 1];
      DistinctSize(init);
      assert s == init + [s[|s| - 1]];
      assert Elements(s) == Elements(init) + {s[|s| - 1]};
    }
  }

  /** Distinct indices below a bound: as many as the bound means all of them. */
  lemma AllIndices(s: seq<nat>, n: nat)
    requires Distinct(s) && forall x <- s :: x < n
    ensures |s| <= n
    ensures |s| == n <==> forall i: nat | i < n :: i in s
  {
    DistinctSize(s);
    SubsetSize(Elements(s), Below(n));
    if |s| == n {
      forall i: nat | i < n ensures i in s { assert i in Elements(s); }
    }
    if forall i: nat | i < n :: i in s {
      assert Elements(s) == Below(n);
    }
  }

  lemma StepsTo(start: nat, i: nat, len: nat) returns (j: nat)
    requires start < len && i < len
    ensures j < len && (start + j) % len == i
  {
    j := if i >= start then i - start else i + len - start;
    assert start + j == i || start + j == i + len;
  }

  lemma MetIsOwned(ring: Ring, start: nat, k: nat, n: nat)
    requires WellFormed(ring) && ring.points != [] && Met(ring, start, k, n)
    ensures Owns(ring, n)
  {
    var j: nat :| j < k && OwnerAt(ring, start, j) == n;
    assert ring.points[(start + j) % |ring.points|] in ring.points;
  }

  /** One lap from any start meets every point. */
  lemma LapMeets(ring: Ring, start: nat, n: nat)
    requires WellFormed(ring) && ring.points != [] && start < |ring.points| && Owns(ring, n)
    ensures Met(ring, start, |ring.points|, n)
  {
    var p :| p in ring.points && ring.owner[p] == n;
    var i :| 0 <= i < |ring.points| && ring.points[i] == p;
    var j := StepsTo(start, i, |ring.points|);
    assert OwnerAt(ring, start, j) == n;
  }

  /**
   The order loop ends exactly when every node still owns a point: after one
   lap if it does, never otherwise, since some node is then met at no step.
   */
  lemma OrderEndsIffCovered(ring: Ring, start: nat)
    requires WellFormed(ring) && ring.points != [] && start < |ring.points|
    ensures Covered(ring) ==> |Walk(ring, start, |ring.points|)| == ring.nodes
    ensures !Covered(ring) ==> forall k: nat :: |Walk(ring, start, k)| < ring.nodes
  {
    var len := |ring.points|;
    if Covered(ring) {
      WalkMeets(ring, start, len);
      AllIndices(Walk(ring, start, len), ring.nodes);
      forall n: nat | n < ring.nodes ensures n in Walk(ring, start, len) {
        LapMeets(ring, start, n);
      }
    } else {
      var n: nat :| n < ring.nodes && !Owns(ring, n);
      forall k: nat ensures |Walk(ring, start, k)| < ring.nodes {
        WalkMeets(ring, start, k);
        AllIndices(Walk(ring, start, k), ring.nodes);
        if n in Walk(ring, start, k) { MetIsOwned(ring, start, k, n); }
      }
    }
  }

  lemma {:induction false} WalkGrows(ring: Ring, start: nat, k: nat, l: nat)
    requires WellFormed(ring) && ring.points != [] && k <= l
    ensures Walk(ring, start, k) <= Walk(ring, start, l)
    decreases l - k
  {
    if k < l {
      WalkGrows(ring, start, k, l - 1);
    }
  }

  /** The first point at or after the hash of the key, wrapping to the first one. */
  ghost predicate IsStart(ring: Ring, h: nat, idx: nat)
    requires ring.points != []
  {
    && idx < |ring.points|
    && (forall i :: 0 <= i < idx ==> ring.points[i] < h)
    && (ring.points[idx] >= h || (idx == 0 && forall p <- ring.points :: p < h))
  }

  lemma {:induction false} SortedPair(s: seq<nat>, i: nat, j: nat)
    requires Sorted(s) && i <= j < |s|
    ensures s[i] <= s[j]
    decreases j - i
  {
    if i < j {
      SortedPair(s, i, j - 1);
    }
  }

  /** Binary search for the first point at or after `h`. */
  method Search(points: seq<nat>, h: nat) returns (lo: nat)
    requires Sorted(points)
    ensures lo <= |points|
    ensures forall i :: 0 <= i < lo ==> points[i] < h
    ensures forall i :: lo <= i < |points| ==> points[i] >= h
  {
    lo := 0;
    var hi := |points|;
    while lo < hi
      invariant lo <= hi <= |points|
      invariant forall i :: 0 <= i < lo ==> points[i] < h
      invariant forall i :: hi <= i < |points| ==> points[i] >= h
    {
      var mid := lo + (hi - lo) / 2;
      if points[mid] >= h {
        forall i | mid <= i < |points| ensures points[i] >= h { SortedPair(points, mid, i); }
        hi := mid;
      } else {
        forall i | 0 <= i <= mid ensures points[i] < h { SortedPair(points, i, mid); }
        lo := mid + 1;
      }
    }
  }

  /** Going clockwise from `h`, the point `p` comes before the point `q`. */
  predicate Sooner(h: nat, p: nat, q: nat) {
    if p >= h then q < h || p < q else p < q < h
  }

  /** Some point of node `a` comes before every point of node `b`. */
  ghost predicate Ahead(ring: Ring, h: nat, a: nat, b: nat)
    requires WellFormed(ring)
  {
    exists p <- ring.points :: ring.owner[p] == a && forall q <- ring.points :: ring.owner[q] == b ==> Sooner(h, p, q)
  }

  /** Nodes are ordered by their first point clockwise from `h`. */
  ghost predicate Clockwise(ring: Ring, h: nat, order: seq<nat>)
    requires WellFormed(ring)
  {
    forall i, j :: 0 <= i < j < |order| ==> Ahead(ring, h, order[i], order[j])
  }

  function PointAt(ring: Ring, start: nat, k: nat): nat
    requires ring.points != []
  {
    ring.points[(start + k) % |ring.points|]
  }

  /** The points of a lap come in clockwise order. */
  lemma LapSooner(ring: Ring, h: nat, start: nat, k: nat, l: nat)
    requires WellFormed(ring) && ring.points != [] && IsStart(ring, h, start) && k < l < |ring.points|
    ensures PointAt(ring, start, k) == PointAt(ring, start, l)
            || Sooner(h, PointAt(ring, start, k), PointAt(ring, start, l))
  {
    var len := |ring.points|;
    var i := Wrapped(start + k, len);
    var j := Wrapped(start + l, len);
    if j >= start {
      SoonerAfter(ring, h, start, i, j);
    } else if i >= start {
      SoonerWrapped(ring, h, start, i, j);
    } else {
      SortedPair(ring.points, i, j);
    }
  }

  lemma Wrapped(n: nat, len: nat) returns (i: nat)
    requires 0 < len && n < 2 * len
    ensures i == n % len == if n < len then n else n - len
  {
    i := if n < len then n else n - len;
  }

  /** From the start to the end of the ring. */
  lemma SoonerAfter(ring: Ring, h: nat, start: nat, i: nat, j: nat)
    requires WellFormed(ring) && ring.points != [] && IsStart(ring, h, start) && start <= i < j < |ring.points|
    ensures ring.points[i] == ring.points[j] || Sooner(h, ring.points[i], ring.points[j])
  {
    SortedPair(ring.points, i, j);
    SortedPair(ring.points, start, i);
    assert ring.points[i] in ring.points && ring.points[j] in ring.points;
  }

  /** Across its end. */
  lemma SoonerWrapped(ring: Ring, h: nat, start: nat, i: nat, j: nat)
    requires WellFormed(ring) && ring.points != [] && IsStart(ring, h, start) && j < start <= i < |ring.points|
    ensures Sooner(h, ring.points[i], ring.points[j])
  {
    SortedPair(ring.points, start, i);
  }

  lemma AllMet(ring: Ring, start: nat, k: nat)
    requires WellFormed(ring) && ring.points != []
    ensures forall l: nat :: l < k ==> OwnerAt(ring, start, l) in Walk(ring, start, k)
  {
    WalkMeets(ring, start, k);
    forall l: nat | l < k ensures OwnerAt(ring, start, l) in Walk(ring, start, k) {
      assert Met(ring, start, k, OwnerAt(ring, start, l));
    }
  }

  /** When the `i`-th of the order is first met, only those before it have been. */
  lemma {:induction false} FirstMet(ring: Ring, start: nat, k: nat, i: nat) returns (j: nat)
    requires WellFormed(ring) && ring.points != [] && i < |Walk(ring, start, k)|
    ensures j < k && OwnerAt(ring, start, j) == Walk(ring, start, k)[i]
    ensures forall l: nat :: l < j ==> OwnerAt(ring, start, l) in Walk(ring, start, k)[..i]
    decreases k
  {
    var before := Walk(ring, start, k - 1);
    if i < |before| {
      j := FirstMet(ring, start, k - 1, i);
      assert Walk(ring, start, k)[..i] == before[..i];
    } else {
      j := k - 1;
      AllMet(ring, start, k - 1);
      assert Walk(ring, start, k)[..i] == before;
    }
  }

  lemma MetAhead(ring: Ring, h: nat, start: nat, i: nat, j: nat)
    requires WellFormed(ring) && ring.points != [] && IsStart(ring, h, start)
    requires i < j < |Walk(ring, start, |ring.points|)|
    ensures var order := Walk(ring, start, |ring.points|); Ahead(ring, h, order[i], order[j])
  {
    var len := |ring.points|;
    var order := Walk(ring, start, len);
    WalkMeets(ring, start, len);
    var k := FirstMet(ring, start, len, i);
    var p := PointAt(ring, start, k);
    assert p in ring.points && ring.owner[p] == order[i];
    forall q | q in ring.points && ring.owner[q] == order[j] ensures Sooner(h, p, q) {
      var at :| 0 <= at < len && ring.points[at] == q;
      var l := StepsTo(start, at, len);
      assert OwnerAt(ring, start, l) == order[j];
      assert order[j] !in order[..i] && order[j] != order[i];
      assert l > k;
      LapSooner(ring, h, start, k, l);
    }
  }

  lemma LapIsClockwise(ring: Ring, h: nat, start: nat)
    requires WellFormed(ring) && ring.points != [] && IsStart(ring, h, start)
    ensures Clockwise(ring, h, Walk(ring, start, |ring.points|))
  {
    var order := Walk(ring, start, |ring.points|);
    forall i, j | 0 <= i < j < |order| ensures Ahead(ring, h, order[i], order[j]) { MetAhead(ring, h, start, i, j); }
  }

  /** A whole lap orders all node indices, each once. */
  lemma LapIsPermutation(ring: Ring, start: nat)
    requires WellFormed(ring) && ring.points != [] && start < |ring.points| && Covered(ring)
    ensures var order := Walk(ring, start, |ring.points|);
            Distinct(order) && |order| == ring.nodes && forall n: nat :: n in order <==> n < ring.nodes
  {
    OrderEndsIffCovered(ring, start);
    WalkMeets(ring, start, |ring.points|);
    AllIndices(Walk(ring, start, |ring.points|), ring.nodes);
  }

  /** The order loop from a given start. */
  method OrderFrom(ring: Ring, start: nat) returns (order: seq<nat>)
    requires WellFormed(ring) && ring.points != [] && start < |ring.points| && Covered(ring)
    ensures order == Walk(ring, start, |ring.points|)
  {
    LapIsPermutation(ring, start);
    order := [];
    var idx := start;
    ghost var k := 0;
    while |order| < ring.nodes
      invariant idx == start + k && k <= |ring.points|
      invariant order == Walk(ring, start, k)
      decreases |ring.points| - k
    {
      var node := ring.owner[ring.points[idx % |ring.points|]];
      assert node == OwnerAt(ring, start, k);
      if node !in order {
        order := order + [node];
      }
      idx := idx + 1;
      k := k + 1;
    }
    WalkGrows(ring, start, k, |ring.points|);
  }

  /**
   The preference order of the key with hash `h`: a permutation of all node
   indices, in the order their points are met clockwise from the key.
   */
  method GetSlotOrder(ring: Ring, h: nat) returns (order: seq<nat>)
    requires WellFormed(ring) && Covered(ring)
    ensures ring.points == [] ==> order == []
    ensures ring.points != [] ==>
              exists start: nat :: IsStart(ring, h, start) && order == Walk(ring, start, |ring.points|)
    ensures Clockwise(ring, h, order)
    ensures ring.points != [] ==>
              Distinct(order) && |order| == ring.nodes && forall n: nat :: n in order <==> n < ring.nodes
  {
    if |ring.points| == 0 {
      return [];
    }
    var idx := Search(ring.points, h);
    if idx >= |ring.points| {
      idx := 0;
    }
    assert IsStart(ring, h, idx);
    order := OrderFrom(ring, idx);
    LapIsPermutation(ring, idx);
    LapIsClockwise(ring, h, idx);
  }
}
