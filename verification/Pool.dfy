/**
 The pool of BuildKit addresses: refresh, snapshot and the two-pass pick of a
 slot with a free token. A slot's semaphore is its token count and capacity.
 */
module SlotPool {
  import opened Options
  import opened HashRing
  import opened Orders

  const REPLICAS := 150

  class Addr {
    const addr: string
    var cooldownUntil: int

    constructor (addr: string)
      ensures this.addr == addr && cooldownUntil == 0
    {
      this.addr := addr;
      cooldownUntil := 0;
    }

    predicate IsInCooldown(now: int)
      reads this
    {
      now < cooldownUntil
    }
  }

  class Slot {
    const addr: Addr
    const capacity: nat
    var tokens: nat

    constructor (addr: Addr, capacity: nat)
      ensures this.addr == addr && this.capacity == capacity && tokens == 0
    {
      this.addr := addr;
      this.capacity := capacity;
      tokens := 0;
    }

    predicate Full()
      reads this
    {
      tokens >= capacity
    }

    /** The non-blocking send on the semaphore channel. */
    method TryAcquire() returns (ok: bool)
      modifies this`tokens
      ensures ok <==> old(tokens) < capacity
      ensures tokens == old(tokens) + if ok then 1 else 0
    {
      ok := tokens < capacity;
      if ok {
        tokens := tokens + 1;
      }
    }
  }

  datatype Snapshot = Snapshot(slots: seq<Slot>, hash: Option<Ring>)

  /** A snapshot pairs the slots with the ring built for exactly that many nodes. */
  ghost predicate SnapshotOk(s: Snapshot) {
    && (s.hash.None? <==> s.slots == [])
    && (s.hash.Some? ==> WellFormed(s.hash.value) && s.hash.value.nodes == |s.slots| && s.hash.value.points != [])
  }

  ghost predicate IndicesInto(order: seq<nat>, slots: seq<Slot>) {
    forall j :: 0 <= j < |order| ==> order[j] < |slots|
  }

  predicate Eligible(slot: Slot, ready: bool, now: int)
    reads slot, slot.addr
  {
    slot.tokens < slot.capacity && !(ready && now < slot.addr.cooldownUntil)
  }

  /** No slot before position `pos` of the order is eligible. */
  ghost predicate NoneBefore(order: seq<nat>, slots: seq<Slot>, pos: nat, ready: bool, now: int)
    requires pos <= |order| && IndicesInto(order, slots)
    reads slots, set s | s in slots :: s.addr
  {
    forall j :: 0 <= j < pos ==> !Eligible(slots[order[j]], ready, now)
  }

  /** One pass over the order: take a token of the first eligible slot. */
  method PickPass(slots: seq<Slot>, order: seq<nat>, ready: bool, now: int) returns (slot: Slot?, pos: nat)
    requires IndicesInto(order, slots)
    modifies (set s | s in slots)`tokens
    ensures pos <= |order| && old(NoneBefore(order, slots, pos, ready, now))
    ensures slot == null ==> pos == |order| && forall s <- slots :: s.tokens == old(s.tokens)
    ensures slot != null ==>
              && pos < |order| && slot == slots[order[pos]] && old(Eligible(slot, ready, now))
              && slot.tokens == old(slot.tokens) + 1
              && forall s <- slots :: s != slot ==> s.tokens == old(s.tokens)
  {
    pos := 0;
    while pos < |order|
      invariant pos <= |order|
      invariant forall s <- slots :: s.tokens == old(s.tokens)
      invariant old(NoneBefore(order, slots, pos, ready, now))
    {
      var candidate := slots[order[pos]];
      assert candidate in slots;
      if !(ready && candidate.addr.IsInCooldown(now)) {
        var ok := candidate.TryAcquire();
        if ok {
          return candidate, pos;
        }
      }
      pos := pos + 1;
    }
    slot := null;
  }

  /** The preference order of a key on a ring. */
  ghost predicate OrderOf(ring: Ring, keyHash: nat, order: seq<nat>) {
    WellFormed(ring) && ring.points != [] &&
    exists start: nat :: IsStart(ring, keyHash, start) && order == Walk(ring, start, |ring.points|)
  }

  /** It is the order in which the nodes' first points are met clockwise from the key. */
  lemma OrderIsClockwise(ring: Ring, keyHash: nat, order: seq<nat>)
    requires OrderOf(ring, keyHash, order)
    ensures Clockwise(ring, keyHash, order)
  {
    var start: nat :| IsStart(ring, keyHash, start) && order == Walk(ring, start, |ring.points|);
    LapIsClockwise(ring, keyHash, start);
  }

  method Preference(ring: Ring, keyHash: nat) returns (order: seq<nat>)
    requires WellFormed(ring) && Covered(ring) && ring.points != []
    ensures OrderOf(ring, keyHash, order) && forall n: nat :: n in order <==> n < ring.nodes
  {
    order := GetSlotOrder(ring, keyHash);
  }

  /**
   Ready slots first, cooling ones only if no ready slot has a free token. With
   nothing else moving during the call, the result is null exactly when every
   slot is full, and no index of the order falls outside the snapshot.
   */
  method PickAvailableSlot(snapshot: Snapshot, keyHash: nat, now: int)
    returns (slot: Slot?, ghost order: seq<nat>, ghost pos: nat)
    requires SnapshotOk(snapshot) && (snapshot.hash.Some? ==> Covered(snapshot.hash.value))
    modifies (set s | s in snapshot.slots)`tokens
    ensures slot == null <==> forall s <- snapshot.slots :: old(s.tokens) >= s.capacity
    ensures slot != null ==>
              && slot in snapshot.slots && old(slot.tokens) < slot.capacity && slot.tokens == old(slot.tokens) + 1
              && (now < slot.addr.cooldownUntil ==>
                    forall s <- snapshot.slots :: old(s.tokens) >= s.capacity || now < s.addr.cooldownUntil)
    ensures forall s <- snapshot.slots :: s != slot ==> s.tokens == old(s.tokens)
    ensures slot != null ==>
              && OrderOf(snapshot.hash.value, keyHash, order) && IndicesInto(order, snapshot.slots)
              && pos < |order| && slot == snapshot.slots[order[pos]]
              && old(NoneBefore(order, snapshot.slots, pos, now >= slot.addr.cooldownUntil, now))
  {
    var slots := snapshot.slots;
    order, pos := [], 0;
    if |slots| == 0 || snapshot.hash.None? {
      return null, [], 0;
    }
    var preference := Preference(snapshot.hash.value, keyHash);
    order := preference;
    assert forall s <- slots :: exists i: nat :: i in order && slots[i] == s by {
      forall s <- slots ensures exists i: nat :: i in order && slots[i] == s {
        var i :| 0 <= i < |slots| && slots[i] == s;
        assert i in order;
      }
    }
    assert forall j :: 0 <= j < |order| ==> order[j] in order;
    slot, pos := PickPass(slots, preference, true, now);
    if slot != null {
      assert order[pos] in order;
      return;
    }
    slot, pos := PickPass(slots, preference, false, now);
    if slot != null {
      assert order[pos] in order;
    }
  }

  // ---------- refresh ----------

  ghost predicate ByAddress(slots: seq<Slot>) {
    forall i :: 0 < i < |slots| ==> !Less(slots[i].addr.addr, slots[i - 1].addr.addr)
  }

  /** Stands for the library sort by address. */
  method SortByAddress(slots: seq<Slot>) returns (r: seq<Slot>)
    ensures ByAddress(r) && multiset(r) == multiset(slots)
  {
    forall x, y | x in slots && y in slots && Less(x.addr.addr, y.addr.addr) ensures !Less(y.addr.addr, x.addr.addr) {
      LessAsymmetric(x.addr.addr, y.addr.addr);
    }
    r := Sort(slots, (x: Slot, y: Slot) => Less(x.addr.addr, y.addr.addr));
  }

  /** The addresses that are not nil. */
  function Present(addrs: seq<Addr?>): seq<Addr> {
    if addrs == [] then []
    else
      var init, last := addrs[..|addrs| - 1], addrs[|addrs| - 1];
      if last == null then Present(init) else Present(init) + [last]
  }

  lemma {:induction false} PresentMeans(addrs: seq<Addr?>, a: Addr)
    ensures multiset(Present(addrs))[a] == multiset(addrs)[a]
    decreases |addrs|
  {
    if addrs != [] {
      var init, last := addrs[..|addrs| - 1], addrs[|addrs| - 1];
      PresentMeans(init, a);
      assert addrs == init + [last];
    }
  }

  ghost predicate Serves(slots: seq<Slot>, address: string) {
    exists i :: 0 <= i < |slots| && slots[i].addr.addr == address
  }

  ghost predicate DistinctSlots(slots: seq<Slot>) {
    forall i, j :: 0 <= i < j < |slots| ==> slots[i].addr.addr != slots[j].addr.addr
  }

  ghost predicate DistinctAddrs(addrs: seq<Addr>) {
    forall i, j :: 0 <= i < j < |addrs| ==> addrs[i].addr != addrs[j].addr
  }

  /** The slot a refresh gives to one address: a slot it already had, or a new empty one. */
  ghost predicate ChosenFor(slot: Slot, before: seq<Slot>, a: Addr, capacity: nat)
    reads slot
  {
    && slot.addr.addr == a.addr
    && if Serves(before, a.addr) then slot in before
       else slot.addr == a && slot.capacity == capacity && slot.tokens == 0
  }

  ghost predicate Chosen(slots: seq<Slot>, before: seq<Slot>, addrs: seq<Addr>, capacity: nat)
    reads slots
  {
    |slots| == |addrs| && forall i :: 0 <= i < |addrs| ==> ChosenFor(slots[i], before, addrs[i], capacity)
  }

  class Pool {
    const concurrency: nat
    const hash: (nat, nat) -> nat
    var slots: seq<Slot>
    var ring: Option<Ring>

    /** One new slot with no token taken for each present address, and no other. */
    constructor (addrs: seq<Addr?>, concurrency: nat, hash: (nat, nat) -> nat)
      ensures SnapshotOk(Snapshot(slots, ring)) && ByAddress(slots)
      ensures this.concurrency == concurrency && this.hash == hash
      ensures |slots| == |Present(addrs)|
      ensures forall s <- slots :: fresh(s) && s.tokens == 0 && s.capacity == concurrency && s.addr in Present(addrs)
      ensures forall a <- Present(addrs) :: exists s <- slots :: s.addr == a
    {
      this.concurrency := concurrency;
      this.hash := hash;
      slots, ring := [], None;
      new;
      ghost var chosen := Replace(addrs);
      var present := Present(addrs);
      forall s <- slots ensures fresh(s) && s.tokens == 0 && s.capacity == concurrency && s.addr in present {
        assert s in multiset(slots);
        var i :| 0 <= i < |chosen| && chosen[i] == s;
        assert ChosenFor(chosen[i], [], present[i], concurrency);
      }
      forall a <- present ensures exists s <- slots :: s.addr == a {
        var i :| 0 <= i < |present| && present[i] == a;
        assert ChosenFor(chosen[i], [], present[i], concurrency);
        assert chosen[i] in multiset(slots);
      }
      assert |slots| == |multiset(slots)| == |multiset(chosen)|;
    }

    method TakeSnapshot() returns (snapshot: Snapshot)
      ensures snapshot == Snapshot(slots, ring)
    {
      snapshot := Snapshot(slots, ring);
    }

    /**
     The new slots are, up to sorting, one per present address: the slot object
     it had, with its tokens and cooldown, or a new one. No token of any slot,
     kept or dropped, is touched.
     */
    method Replace(addrs: seq<Addr?>) returns (ghost chosen: seq<Slot>)
      modifies this`slots, this`ring
      ensures SnapshotOk(Snapshot(slots, ring)) && ByAddress(slots)
      ensures multiset(slots) == multiset(chosen) && Chosen(chosen, old(slots), Present(addrs), concurrency)
      ensures forall s <- slots :: s in old(slots) || fresh(s)
      ensures ring.Some? ==> RingOf(ring.value, hash, |slots|, REPLICAS)
      ensures ring.Some? ==>
                (Covered(ring.value) <==> forall n: nat | n < |slots| :: KeepsPoint(hash, |slots|, REPLICAS, n))
    {
      var existing := IndexByAddress();
      var picked: seq<Slot> := [];
      for i := 0 to |addrs|
        invariant unchanged(this)
        invariant Chosen(picked, slots, Present(addrs[..i]), concurrency)
        invariant forall s <- picked :: s in slots || fresh(s)
      {
        assert addrs[..i + 1][..i] == addrs[..i];
        if addrs[i] != null {
          var a: Addr := addrs[i];
          if a.addr in existing {
            picked := picked + [existing[a.addr]];
          } else {
            var s := new Slot(a, concurrency);
            picked := picked + [s];
          }
        }
      }
      assert addrs[..|addrs|] == addrs;
      chosen := picked;
      var sorted := SortByAddress(picked);
      forall s <- sorted ensures s in picked { assert s in multiset(sorted); }
      slots := sorted;
      if |slots| == 0 {
        ring := None;
      } else {
        var r := NewConsistentHash(|slots|, REPLICAS, hash);
        ring := Some(r);
      }
    }

    method IndexByAddress() returns (existing: map<string, Slot>)
      ensures forall a <- existing :: existing[a] in slots && existing[a].addr.addr == a
      ensures forall a :: a in existing <==> Serves(slots, a)
    {
      existing := map[];
      for i := 0 to |slots|
        invariant forall a <- existing :: existing[a] in slots && existing[a].addr.addr == a
        invariant forall j :: 0 <= j < i ==> slots[j].addr.addr in existing
      {
        existing := existing[slots[i].addr.addr := slots[i]];
      }
    }
  }

  /** With distinct addresses a refresh keeps the very slot object of every address that stays. */
  lemma RefreshKeepsIdentity(before: seq<Slot>, after: seq<Slot>, chosen: seq<Slot>, addrs: seq<Addr>, capacity: nat,
        o: Slot)
    requires Chosen(chosen, before, addrs, capacity) && multiset(after) == multiset(chosen)
    requires DistinctSlots(before) && o in before
    ensures o in after <==> exists a <- addrs :: a.addr == o.addr.addr
    ensures forall s <- after :: s.addr.addr == o.addr.addr ==> s == o
  {
    forall s <- after | s.addr.addr == o.addr.addr ensures s == o {
      assert s in multiset(after);
      var i :| 0 <= i < |chosen| && chosen[i] == s;
      assert ChosenFor(chosen[i], before, addrs[i], capacity);
      assert Serves(before, o.addr.addr);
    }
    if o in after {
      assert o in multiset(after);
      var i :| 0 <= i < |chosen| && chosen[i] == o;
      assert ChosenFor(chosen[i], before, addrs[i], capacity);
      assert addrs[i] in addrs;
    }
    if a :| a in addrs && a.addr == o.addr.addr {
      var i :| 0 <= i < |addrs| && addrs[i] == a;
      assert ChosenFor(chosen[i], before, addrs[i], capacity);
      assert Serves(before, a.addr);
      assert chosen[i] in multiset(after);
    }
  }

  lemma TwiceInMultiset(s: seq<Slot>, i: nat, j: nat)
    requires i < j < |s| && s[i] == s[j]
    ensures multiset(s)[s[i]] >= 2
  {
    assert s == s[..j] + s[j..];
    assert s[i] in multiset(s[..j]) by { assert s[..j][i] == s[i]; }
    assert s[j] in multiset(s[j..]) by { assert s[j..][0] == s[j]; }
  }

  lemma {:induction false} OnceInMultiset(s: seq<Slot>, x: Slot)
    requires DistinctSlots(s)
    ensures multiset(s)[x] <= 1
    decreases |s|
  {
    if s != [] {
      var init := s[..|s| - 1];
      OnceInMultiset(init, x);
      assert s == init + [s[|s| - 1]];
      if x == s[|s| - 1] {
        assert x !in init;
      }
    }
  }

  /** Distinct addresses give distinct slots. */
  lemma RefreshKeepsDistinct(before: seq<Slot>, after: seq<Slot>, chosen: seq<Slot>, addrs: seq<Addr>, capacity: nat)
    requires Chosen(chosen, before, addrs, capacity) && multiset(after) == multiset(chosen)
    requires DistinctAddrs(addrs)
    ensures DistinctSlots(after)
  {
    assert DistinctSlots(chosen) by {
      forall i, j | 0 <= i < j < |chosen| ensures chosen[i].addr.addr != chosen[j].addr.addr {
        assert ChosenFor(chosen[i], before, addrs[i], capacity) && ChosenFor(chosen[j], before, addrs[j], capacity);
      }
    }
    forall i, j | 0 <= i < j < |after| ensures after[i].addr.addr != after[j].addr.addr {
      if after[i] == after[j] {
        TwiceInMultiset(after, i, j);
        OnceInMultiset(chosen, after[i]);
        assert false;
      }
      assert after[i] in multiset(after) && after[j] in multiset(after);
      var k :| 0 <= k < |chosen| && chosen[k] == after[i];
      var l :| 0 <= l < |chosen| && chosen[l] == after[j];
    }
  }
}
