/** The open-addressing hash map: probing by groups of eight control bytes, tombstones, rehash.
    The invariant of the table and the effect of each operation are stated over sequences first; the class
    below them works in place on its arrays. */
module SwissTable {
  import opened Swar
  import opened Wrappers
  import Bits

  datatype Slot<K, V> = Slot(key: K, value: V)

  const GROUP_SIZE: nat := 8
  const INITIAL_CAPACITY: nat := 8

  // ---------- where a key is looked for ----------

  // The 64-bit hash of a key.
  datatype Hash = Hash(bits: bv64)

  function H1(h: Hash): nat { (h.bits >> 7) as nat }

  function H2(h: Hash): (r: Byte)
    ensures IsFull(r)
  {
    Byte((h.bits & 0x7F) as bv8)
  }

  predicate IsCapacity(cap: nat) { cap > 0 && cap % 8 == 0 }

  // bebop__map_probe_offset: 0, 1, 3, 6, 10, ...
  function ProbeOffset(probe: nat): nat {
    if probe == 0 then 0 else ProbeOffset(probe - 1) + probe
  }

  lemma {:induction false} ProbeOffsetClosed(probe: nat)
    ensures ProbeOffset(probe) == probe * (probe + 1) / 2
  {
    if probe > 0 { ProbeOffsetClosed(probe - 1); }
  }

  // ((H1(h) & mask) + offset & mask) aligned down to a group
  function GroupAt(h: Hash, probe: nat, cap: nat): (g: nat)
    requires IsCapacity(cap)
    ensures g + 8 <= cap && g % 8 == 0
  {
    var mask := cap - 1;
    var at := Bits.And(Bits.And(H1(h), mask) + ProbeOffset(probe), mask);
    Bits.AndBound(Bits.And(H1(h), mask) + ProbeOffset(probe), mask);
    AlignedDown(at, cap);
    at - at % 8
  }

  lemma AlignedDown(at: nat, cap: nat)
    requires at < cap && cap % 8 == 0
    ensures at - at % 8 + 8 <= cap && (at - at % 8) % 8 == 0
  {
  }

  function Probes(cap: nat): nat { cap / GROUP_SIZE + 2 }

  ghost predicate NoEmpty(ctrl: seq<Byte>, g: nat)
    requires g + 8 <= |ctrl|
  {
    forall i :: g <= i < g + 8 ==> ctrl[i] != EMPTY
  }

  // Slot i lies in the group of probe p of this hash, and no earlier group has an empty slot.
  ghost predicate FoundAt(ctrl: seq<Byte>, cap: nat, h: Hash, i: nat, p: nat)
    requires IsCapacity(cap) && cap <= |ctrl|
  {
    && p < Probes(cap)
    && GroupAt(h, p, cap) <= i < GroupAt(h, p, cap) + 8
    && forall q :: 0 <= q < p ==> NoEmpty(ctrl, GroupAt(h, q, cap))
  }

  ghost predicate Reachable(ctrl: seq<Byte>, cap: nat, h: Hash, i: nat)
    requires IsCapacity(cap) && cap <= |ctrl|
  {
    exists p :: FoundAt(ctrl, cap, h, i, p)
  }

  lemma ReachableKept(ctrl: seq<Byte>, after: seq<Byte>, cap: nat, h: Hash, i: nat)
    requires IsCapacity(cap) && cap <= |ctrl| == |after| && Reachable(ctrl, cap, h, i)
    requires forall j :: 0 <= j < cap && ctrl[j] != EMPTY ==> after[j] != EMPTY
    ensures Reachable(after, cap, h, i)
  {
    hide GroupAt, Probes;
    var p: nat :| FoundAt(ctrl, cap, h, i, p);
    forall q | 0 <= q < p
      ensures NoEmpty(after, GroupAt(h, q, cap))
    {
      assert NoEmpty(ctrl, GroupAt(h, q, cap));
    }
    assert FoundAt(after, cap, h, i, p);
  }

  // ---------- the table invariant ----------

  // eq is an equivalence and the hash respects it.
  ghost predicate Lawful<K(!new)>(hash: K -> Hash, eq: (K, K) -> bool) {
    && (forall x :: eq(x, x))
    && (forall x, y :: eq(x, y) ==> eq(y, x) && hash(x) == hash(y))
    && (forall x, y, z :: eq(x, y) && eq(y, z) ==> eq(x, z))
  }

  // Control bytes agree with the keys, and every stored key is found by its probe sequence.
  ghost predicate Placed<K, V>(ctrl: seq<Byte>, slots: seq<Slot<K, V>>, cap: nat, hash: K -> Hash) {
    && IsCapacity(cap) && |ctrl| >= cap && |slots| == cap
    && (forall i :: 0 <= i < cap ==> IsControl(ctrl[i]))
    && (forall i :: 0 <= i < cap && IsFull(ctrl[i]) ==>
          ctrl[i] == H2(hash(slots[i].key)) && Reachable(ctrl, cap, hash(slots[i].key), i))
  }

  // The full slots are exactly the entries of m, each stored once.
  ghost predicate Holds<K, V>(ctrl: seq<Byte>, slots: seq<Slot<K, V>>, cap: nat, m: map<K, V>) {
    && |ctrl| >= cap && |slots| == cap
    && (forall i :: 0 <= i < cap && IsFull(ctrl[i]) ==> slots[i].key in m && m[slots[i].key] == slots[i].value)
    && (forall k :: k in m ==> exists i :: 0 <= i < cap && IsFull(ctrl[i]) && slots[i].key == k)
    && (forall i, j :: 0 <= i < j < cap && IsFull(ctrl[i]) && IsFull(ctrl[j]) ==> slots[i].key != slots[j].key)
  }

  ghost predicate Distinct<K(!new), V>(m: map<K, V>, eq: (K, K) -> bool) {
    forall k, l :: k in m && l in m && eq(k, l) ==> k == l
  }

  // The stored key that eq identifies with key, or key itself when there is none.
  ghost function Stored<K(!new), V>(m: map<K, V>, eq: (K, K) -> bool, key: K): K {
    if exists k :: k in m && eq(k, key) then var k :| k in m && eq(k, key); k else key
  }

  lemma StoredIs<K(!new), V>(m: map<K, V>, hash: K -> Hash, eq: (K, K) -> bool, key: K, k: K)
    requires Lawful(hash, eq) && Distinct(m, eq) && k in m && eq(k, key)
    ensures Stored(m, eq, key) == k
  {
    var s := Stored(m, eq, key);
    assert s in m && eq(s, key);
    assert eq(key, k);
    assert eq(s, k);
  }

  lemma StoredAbsent<K(!new), V>(m: map<K, V>, hash: K -> Hash, eq: (K, K) -> bool, key: K)
    requires Lawful(hash, eq) && forall k :: k in m ==> !eq(k, key)
    ensures Stored(m, eq, key) == key && key !in m
  {
    assert eq(key, key);
  }

  function CountUsed(ctrl: seq<Byte>, n: nat): (c: nat)
    requires n <= |ctrl|
    ensures c <= n
  {
    if n == 0 then 0 else CountUsed(ctrl, n - 1) + if ctrl[n - 1] == EMPTY then 0 else 1
  }

  function CountFull(ctrl: seq<Byte>, n: nat): (c: nat)
    requires n <= |ctrl|
    ensures c <= CountUsed(ctrl, n)
  {
    if n == 0 then 0 else CountFull(ctrl, n - 1) + if IsFull(ctrl[n - 1]) then 1 else 0
  }

  lemma {:induction false} CountUsedUpdate(ctrl: seq<Byte>, n: nat, i: nat, c: Byte)
    requires n <= |ctrl| && i < |ctrl| && c != EMPTY
    ensures CountUsed(ctrl[i := c], n) == CountUsed(ctrl, n) + if i < n && ctrl[i] == EMPTY then 1 else 0
  {
    if n > 0 { CountUsedUpdate(ctrl, n - 1, i, c); }
  }

  // ---------- what a write does to the invariant ----------

  lemma PlacedKept<K, V>(
      ctrl: seq<Byte>, slots: seq<Slot<K, V>>, cap: nat, hash: K -> Hash, i: nat, c: Byte, s: Slot<K, V>)
    requires Placed(ctrl, slots, cap, hash) && i < cap && IsControl(c) && c != EMPTY
    requires IsFull(c) ==> c == H2(hash(s.key)) && Reachable(ctrl, cap, hash(s.key), i)
    ensures Placed(ctrl[i := c], slots[i := s], cap, hash)
  {
    var after := ctrl[i := c];
    forall j | 0 <= j < cap && IsFull(after[j])
      ensures after[j] == H2(hash(slots[i := s][j].key)) && Reachable(after, cap, hash(slots[i := s][j].key), j)
    {
      ReachableKept(ctrl, after, cap, hash(slots[i := s][j].key), j);
    }
  }

  lemma HoldsInsert<K, V>(
      ctrl: seq<Byte>, slots: seq<Slot<K, V>>, cap: nat, m: map<K, V>, i: nat, c: Byte, key: K, value: V)
    requires Holds(ctrl, slots, cap, m) && i < cap && !IsFull(ctrl[i]) && IsFull(c) && key !in m
    ensures Holds(ctrl[i := c], slots[i := Slot(key, value)], cap, m[key := value])
  {
    var ctrl', slots', m' := ctrl[i := c], slots[i := Slot(key, value)], m[key := value];
    forall k | k in m'
      ensures exists j :: 0 <= j < cap && IsFull(ctrl'[j]) && slots'[j].key == k
    {
      if k == key {
        assert slots'[i].key == k;
      } else {
        var j :| 0 <= j < cap && IsFull(ctrl[j]) && slots[j].key == k;
        assert slots'[j].key == k;
      }
    }
  }

  lemma HoldsUpdate<K, V>(ctrl: seq<Byte>, slots: seq<Slot<K, V>>, cap: nat, m: map<K, V>, i: nat, value: V)
    requires Holds(ctrl, slots, cap, m) && i < cap && IsFull(ctrl[i])
    ensures Holds(ctrl, slots[i := Slot(slots[i].key, value)], cap, m[slots[i].key := value])
  {
    var slots', m' := slots[i := Slot(slots[i].key, value)], m[slots[i].key := value];
    forall k | k in m'
      ensures exists j :: 0 <= j < cap && IsFull(ctrl[j]) && slots'[j].key == k
    {
      var j :| 0 <= j < cap && IsFull(ctrl[j]) && slots[j].key == k;
      assert slots'[j].key == k;
    }
  }

  lemma HoldsRemove<K, V>(ctrl: seq<Byte>, slots: seq<Slot<K, V>>, cap: nat, m: map<K, V>, i: nat)
    requires Holds(ctrl, slots, cap, m) && i < cap && IsFull(ctrl[i])
    ensures Holds(ctrl[i := DELETED], slots, cap, m - {slots[i].key})
  {
    var ctrl', m' := ctrl[i := DELETED], m - {slots[i].key};
    forall k | k in m'
      ensures exists j :: 0 <= j < cap && IsFull(ctrl'[j]) && slots[j].key == k
    {
      var j :| 0 <= j < cap && IsFull(ctrl[j]) && slots[j].key == k;
      assert IsFull(ctrl'[j]) && slots[j].key == k;
    }
  }

  // ---------- when a search may stop ----------

  // No key of group g is the one looked for.
  ghost predicate NotInGroup<K, V>(
      ctrl: seq<Byte>, slots: seq<Slot<K, V>>, eq: (K, K) -> bool, key: K, h2: Byte, g: nat)
    requires g + 8 <= |ctrl| && g + 8 <= |slots|
  {
    forall i :: g <= i < g + 8 && ctrl[i] == h2 ==> !eq(slots[i].key, key)
  }

  ghost predicate NotBefore<K, V>(
      ctrl: seq<Byte>, slots: seq<Slot<K, V>>, cap: nat, hash: K -> Hash, eq: (K, K) -> bool, key: K, p: nat)
    requires IsCapacity(cap) && cap <= |ctrl| && cap <= |slots|
  {
    forall q :: 0 <= q < p ==> NotInGroup(ctrl, slots, eq, key, H2(hash(key)), GroupAt(hash(key), q, cap))
  }

  lemma NotBeforeStep<K, V>(
      ctrl: seq<Byte>, slots: seq<Slot<K, V>>, cap: nat, hash: K -> Hash, eq: (K, K) -> bool, key: K, p: nat)
    requires IsCapacity(cap) && cap <= |ctrl| && cap <= |slots|
    ensures NotBefore(ctrl, slots, cap, hash, eq, key, 0)
    ensures NotBefore(ctrl, slots, cap, hash, eq, key, p)
            && NotInGroup(ctrl, slots, eq, key, H2(hash(key)), GroupAt(hash(key), p, cap))
            ==> NotBefore(ctrl, slots, cap, hash, eq, key, p + 1)
  {
    hide NotInGroup, GroupAt, H2;
  }

  // After an empty slot was seen, or after the whole window, the key is known to be absent.
  lemma KnownAbsent<K(!new), V>(
      ctrl: seq<Byte>, slots: seq<Slot<K, V>>, cap: nat, hash: K -> Hash, eq: (K, K) -> bool, m: map<K, V>,
      key: K, p: nat)
    requires Lawful(hash, eq) && Placed(ctrl, slots, cap, hash) && Holds(ctrl, slots, cap, m)
    requires p <= Probes(cap) && NotBefore(ctrl, slots, cap, hash, eq, key, p)
    requires p == Probes(cap) || (p > 0 && !NoEmpty(ctrl, GroupAt(hash(key), p - 1, cap)))
    ensures forall k :: k in m ==> !eq(k, key)
  {
    hide GroupAt, Probes, IsFull;
    forall k | k in m
      ensures !eq(k, key)
    {
      var i :| 0 <= i < cap && IsFull(ctrl[i]) && slots[i].key == k;
      if hash(k) == hash(key) {
        var q: nat :| FoundAt(ctrl, cap, hash(key), i, q);
        assert q < p;
        assert NotInGroup(ctrl, slots, eq, key, H2(hash(key)), GroupAt(hash(key), q, cap));
      }
    }
  }

  // ---------- where a new key goes ----------

  // First slot of the group that is not full, counted from i.
  function FirstVacant(ctrl: seq<Byte>, g: nat, i: nat): (n: nat)
    requires g + 8 <= |ctrl| && i <= 8
    ensures i <= n <= 8
    decreases 8 - i
  {
    if i == 8 || !IsFull(ctrl[g + i]) then i else FirstVacant(ctrl, g, i + 1)
  }

  lemma {:induction false} FirstVacantMeaning(ctrl: seq<Byte>, g: nat, i: nat)
    requires g + 8 <= |ctrl| && i <= 8
    ensures var n := FirstVacant(ctrl, g, i);
            (n < 8 ==> !IsFull(ctrl[g + n])) && forall k :: g + i <= k < g + n ==> IsFull(ctrl[k])
    decreases 8 - i
  {
    if i < 8 && IsFull(ctrl[g + i]) { FirstVacantMeaning(ctrl, g, i + 1); }
  }

  // The slot a new key with this hash is put in: the first vacant one of its window, if there is any.
  function Place(ctrl: seq<Byte>, cap: nat, h: Hash, p: nat): (r: Option<nat>)
    requires IsCapacity(cap) && cap <= |ctrl| && p <= Probes(cap)
    ensures r.Some? ==> r.value < cap && !IsFull(ctrl[r.value])
    decreases Probes(cap) - p
  {
    if p == Probes(cap) then None
    else
      var g := GroupAt(h, p, cap);
      var n := FirstVacant(ctrl, g, 0);
      FirstVacantMeaning(ctrl, g, 0);
      if n < 8 then Some(g + n) else Place(ctrl, cap, h, p + 1)
  }

  lemma PlaceStep(ctrl: seq<Byte>, cap: nat, h: Hash, p: nat)
    requires IsCapacity(cap) && cap <= |ctrl| && p <= Probes(cap)
    ensures p == Probes(cap) ==> Place(ctrl, cap, h, p) == None
    ensures p < Probes(cap) ==>
              var n := FirstVacant(ctrl, GroupAt(h, p, cap), 0);
              Place(ctrl, cap, h, p) == if n < 8 then Some(GroupAt(h, p, cap) + n) else Place(ctrl, cap, h, p + 1)
  {
    hide FirstVacant, GroupAt, Probes;
  }

  // What the probe loop knows of the insertion slot before probe p.
  ghost predicate Candidate(ctrl: seq<Byte>, cap: nat, h: Hash, p: nat, slot: Option<nat>)
    requires IsCapacity(cap) && cap <= |ctrl|
  {
    && p <= Probes(cap)
    && Place(ctrl, cap, h, 0) == if slot.Some? then slot else Place(ctrl, cap, h, p)
  }

  lemma CandidateStart(ctrl: seq<Byte>, cap: nat, h: Hash)
    requires IsCapacity(cap) && cap <= |ctrl|
    ensures Candidate(ctrl, cap, h, 0, None)
  {
  }

  lemma CandidateStep(ctrl: seq<Byte>, cap: nat, h: Hash, p: nat, slot: Option<nat>)
    requires IsCapacity(cap) && cap <= |ctrl| && p < Probes(cap) && Candidate(ctrl, cap, h, p, slot)
    ensures var n := FirstVacant(ctrl, GroupAt(h, p, cap), 0);
            var next := if slot.Some? then slot else if n < 8 then Some(GroupAt(h, p, cap) + n) else None;
            Candidate(ctrl, cap, h, p + 1, next)
  {
    hide FirstVacant, GroupAt, Probes, Place;
    PlaceStep(ctrl, cap, h, p);
  }

  // The candidate is final once a slot was found, or after the whole window.
  lemma CandidateFinal(ctrl: seq<Byte>, cap: nat, h: Hash, p: nat, slot: Option<nat>)
    requires IsCapacity(cap) && cap <= |ctrl| && Candidate(ctrl, cap, h, p, slot)
    requires slot.Some? || p == Probes(cap)
    ensures slot == Place(ctrl, cap, h, 0)
  {
    hide GroupAt, Probes, Place;
    if p == Probes(cap) { PlaceStep(ctrl, cap, h, p); }
  }

  ghost predicate AllFull(ctrl: seq<Byte>, g: nat)
    requires g + 8 <= |ctrl|
  {
    forall i :: g <= i < g + 8 ==> IsFull(ctrl[i])
  }

  // There is no place exactly when every group of the window is full.
  lemma {:induction false} PlaceMeaning(ctrl: seq<Byte>, cap: nat, h: Hash, p: nat)
    requires IsCapacity(cap) && cap <= |ctrl| && p <= Probes(cap)
    ensures Place(ctrl, cap, h, p) == None <==>
              forall q :: p <= q < Probes(cap) ==> AllFull(ctrl, GroupAt(h, q, cap))
    decreases Probes(cap) - p
  {
    hide GroupAt, Probes;
    if p < Probes(cap) {
      var g := GroupAt(h, p, cap);
      var n := FirstVacant(ctrl, g, 0);
      FirstVacantMeaning(ctrl, g, 0);
      if n < 8 {
        assert !IsFull(ctrl[g + n]);
        assert !AllFull(ctrl, g);
      } else {
        assert AllFull(ctrl, g);
        PlaceMeaning(ctrl, cap, h, p + 1);
      }
    }
  }

  lemma {:induction false} PlaceReachable(ctrl: seq<Byte>, cap: nat, h: Hash, p: nat)
    requires IsCapacity(cap) && cap <= |ctrl| && p <= Probes(cap)
    requires forall q :: 0 <= q < p ==> AllFull(ctrl, GroupAt(h, q, cap))
    requires Place(ctrl, cap, h, p).Some?
    ensures Reachable(ctrl, cap, h, Place(ctrl, cap, h, p).value)
    decreases Probes(cap) - p
  {
    hide GroupAt, Probes;
    var g := GroupAt(h, p, cap);
    FirstVacantMeaning(ctrl, g, 0);
    if FirstVacant(ctrl, g, 0) < 8 {
      forall q | 0 <= q < p
        ensures NoEmpty(ctrl, GroupAt(h, q, cap))
      {
        assert AllFull(ctrl, GroupAt(h, q, cap));
      }
      assert FoundAt(ctrl, cap, h, g + FirstVacant(ctrl, g, 0), p);
    } else {
      PlaceReachable(ctrl, cap, h, p + 1);
    }
  }

  lemma EmptySeen(ctrl: seq<Byte>, g: nat)
    requires g + 8 <= |ctrl| && forall i :: g <= i < g + 8 ==> IsControl(ctrl[i])
    ensures MatchEmpty(GroupWord(ctrl, g)) != 0 <==> !NoEmpty(ctrl, g)
  {
    hide Hit, MatchEmpty, GroupWord, IsControl;
    var m := MatchEmpty(GroupWord(ctrl, g));
    NoHits(m);
    forall i | 0 <= i < 8
      ensures Hit(m, i) <==> ctrl[g + i] == EMPTY
    {
      MatchEmptySlots(ctrl, g, i);
    }
    if !NoEmpty(ctrl, g) {
      var i :| g <= i < g + 8 && ctrl[i] == EMPTY;
      assert Hit(m, i - g);
    }
  }

  lemma EmptyIsVacant(ctrl: seq<Byte>, g: nat)
    requires g + 8 <= |ctrl| && !NoEmpty(ctrl, g)
    ensures FirstVacant(ctrl, g, 0) < 8
  {
    FirstVacantMeaning(ctrl, g, 0);
    var i :| g <= i < g + 8 && ctrl[i] == EMPTY;
    assert !IsFull(ctrl[i]);
  }

  lemma VacantSeen(ctrl: seq<Byte>, g: nat)
    requires g + 8 <= |ctrl|
    ensures var m := MatchEmptyOrDeleted(GroupWord(ctrl, g));
            MatchFirst(m) == FirstVacant(ctrl, g, 0) && (m != 0 <==> MatchFirst(m) < 8)
  {
    hide Hit, MatchEmptyOrDeleted, GroupWord, IsFull;
    var m := MatchEmptyOrDeleted(GroupWord(ctrl, g));
    NoHits(m);
    forall i | 0 <= i < 8
      ensures Hit(m, i) <==> !IsFull(ctrl[g + i])
    {
      MatchVacantSlots(ctrl, g, i);
    }
    FirstAgrees(ctrl, g, m, 0);
  }

  lemma {:induction false} FirstAgrees(ctrl: seq<Byte>, g: nat, m: bv64, i: nat)
    requires g + 8 <= |ctrl| && i <= 8
    requires forall k :: 0 <= k < 8 ==> (Hit(m, k) <==> !IsFull(ctrl[g + k]))
    ensures FirstFrom(m, i) == FirstVacant(ctrl, g, i)
    decreases 8 - i
  {
    hide Hit, IsFull;
    if i < 8 { FirstAgrees(ctrl, g, m, i + 1); }
  }

  lemma {:induction false} NothingUsed(ctrl: seq<Byte>, n: nat)
    requires n <= |ctrl| && forall i :: 0 <= i < n ==> ctrl[i] == EMPTY
    ensures CountUsed(ctrl, n) == 0
  {
    if n > 0 { NothingUsed(ctrl, n - 1); }
  }

  // ---------- the whole state ----------

  datatype Table<K, V> = Table(ctrl: seq<Byte>, slots: seq<Slot<K, V>>, capacity: nat, growthLeft: nat, length: nat)

  // The table stores exactly the map m. Before the first insertion it has no storage at all.
  ghost predicate Inv<K(!new), V>(t: Table<K, V>, hash: K -> Hash, eq: (K, K) -> bool, m: map<K, V>) {
    && Lawful(hash, eq) && Distinct(m, eq) && t.length == |m|
    && |t.ctrl| >= t.capacity == |t.slots|
    && (t.capacity == 0 ==> m == map[] && t.growthLeft == 0)
    && (t.capacity > 0 ==>
          && Placed(t.ctrl, t.slots, t.capacity, hash)
          && Holds(t.ctrl, t.slots, t.capacity, m)
          && t.growthLeft + CountUsed(t.ctrl, t.capacity) == t.capacity * 7 / 8)
  }

  lemma KeyOfSlot<K, V>(ctrl: seq<Byte>, slots: seq<Slot<K, V>>, cap: nat, m: map<K, V>, i: nat)
    requires Holds(ctrl, slots, cap, m) && i < cap && IsFull(ctrl[i])
    ensures slots[i].key in m && m[slots[i].key] == slots[i].value && |m| > 0
  {
  }

  lemma PlacedUpdate<K, V>(ctrl: seq<Byte>, slots: seq<Slot<K, V>>, cap: nat, hash: K -> Hash, i: nat, value: V)
    requires Placed(ctrl, slots, cap, hash) && i < cap
    ensures Placed(ctrl, slots[i := Slot(slots[i].key, value)], cap, hash)
  {
  }

  // A table with storage, part by part.
  ghost predicate Stores<K(!new), V>(t: Table<K, V>, hash: K -> Hash, eq: (K, K) -> bool, m: map<K, V>) {
    && Lawful(hash, eq) && Distinct(m, eq) && t.length == |m|
    && IsCapacity(t.capacity) && |t.ctrl| >= t.capacity == |t.slots|
    && Placed(t.ctrl, t.slots, t.capacity, hash)
    && Holds(t.ctrl, t.slots, t.capacity, m)
    && t.growthLeft + CountUsed(t.ctrl, t.capacity) == t.capacity * 7 / 8
  }

  lemma InvStores<K(!new), V>(t: Table<K, V>, hash: K -> Hash, eq: (K, K) -> bool, m: map<K, V>)
    ensures Inv(t, hash, eq, m) && t.capacity > 0 <==> Stores(t, hash, eq, m)
  {
    hide Lawful, Distinct, Holds;
  }

  lemma InvRemove<K(!new), V>(t: Table<K, V>, hash: K -> Hash, eq: (K, K) -> bool, m: map<K, V>, i: nat)
    requires Inv(t, hash, eq, m) && i < t.capacity == |t.slots| <= |t.ctrl| && IsFull(t.ctrl[i])
    ensures t.slots[i].key in m && t.length > 0
    ensures Inv(t.(ctrl := t.ctrl[i := DELETED], length := t.length - 1), hash, eq, m - {t.slots[i].key})
  {
    hide Inv, Placed, Lawful, Distinct, Holds;
    InvStores(t, hash, eq, m);
    KeyOfSlot(t.ctrl, t.slots, t.capacity, m, i);
    var after := Table(t.ctrl[i := DELETED], t.slots, t.capacity, t.growthLeft, t.length - 1);
    HoldsRemove(t.ctrl, t.slots, t.capacity, m, i);
    PlacedKept(t.ctrl, t.slots, t.capacity, hash, i, DELETED, t.slots[i]);
    CountUsedUpdate(t.ctrl, t.capacity, i, DELETED);
    SameKeysDistinct(m, m - {t.slots[i].key}, eq);
    assert t.slots[i := t.slots[i]] == t.slots;
    InvStores(after, hash, eq, m - {t.slots[i].key});
  }

  lemma InvUpdate<K(!new), V>(
      t: Table<K, V>, hash: K -> Hash, eq: (K, K) -> bool, m: map<K, V>, i: nat, value: V)
    requires Inv(t, hash, eq, m) && i < t.capacity == |t.slots| <= |t.ctrl| && IsFull(t.ctrl[i])
    ensures t.slots[i].key in m
    ensures Inv(t.(slots := t.slots[i := Slot(t.slots[i].key, value)]), hash, eq, m[t.slots[i].key := value])
  {
    hide Inv, Placed, Lawful, Distinct, Holds;
    InvStores(t, hash, eq, m);
    KeyOfSlot(t.ctrl, t.slots, t.capacity, m, i);
    var n := m[t.slots[i].key := value];
    HoldsUpdate(t.ctrl, t.slots, t.capacity, m, i, value);
    PlacedUpdate(t.ctrl, t.slots, t.capacity, hash, i, value);
    SameKeysDistinct(m, n, eq);
    SameSize(m, t.slots[i].key, value);
    InvStores(t.(slots := t.slots[i := Slot(t.slots[i].key, value)]), hash, eq, n);
  }

  lemma SameSize<K, V>(m: map<K, V>, k: K, v: V)
    requires k in m
    ensures m[k := v].Keys == m.Keys && |m[k := v]| == |m|
  {
  }

  lemma SameKeysDistinct<K(!new), V>(m: map<K, V>, n: map<K, V>, eq: (K, K) -> bool)
    requires Distinct(m, eq) && n.Keys <= m.Keys
    ensures Distinct(n, eq)
  {
  }

  lemma FullIsControl(c: Byte)
    requires IsFull(c)
    ensures IsControl(c) && c != EMPTY
  {
  }

  lemma InvInsert<K(!new), V>(
      t: Table<K, V>, hash: K -> Hash, eq: (K, K) -> bool, m: map<K, V>, i: nat, key: K, value: V)
    requires Inv(t, hash, eq, m) && t.growthLeft > 0
    requires i < t.capacity == |t.slots| <= |t.ctrl| && IsCapacity(t.capacity)
    requires !IsFull(t.ctrl[i]) && Reachable(t.ctrl, t.capacity, hash(key), i)
    requires forall k :: k in m ==> !eq(k, key)
    ensures Inv(Table(t.ctrl[i := H2(hash(key))], t.slots[i := Slot(key, value)], t.capacity,
                      t.growthLeft - (if t.ctrl[i] == EMPTY then 1 else 0), t.length + 1),
                hash, eq, m[key := value])
  {
    hide Inv, Placed, Lawful, Distinct, Holds, Reachable, IsFull, IsControl, H2;
    var h2 := H2(hash(key));
    FullIsControl(h2);
    InvStores(t, hash, eq, m);
    StoredAbsent(m, hash, eq, key);
    DistinctInsert(m, hash, eq, key, value);
    HoldsInsert(t.ctrl, t.slots, t.capacity, m, i, h2, key, value);
    PlacedKept(t.ctrl, t.slots, t.capacity, hash, i, h2, Slot(key, value));
    CountUsedUpdate(t.ctrl, t.capacity, i, h2);
    InvStores(Table(t.ctrl[i := h2], t.slots[i := Slot(key, value)], t.capacity,
                    t.growthLeft - (if t.ctrl[i] == EMPTY then 1 else 0), t.length + 1), hash, eq, m[key := value]);
  }

  lemma DistinctInsert<K(!new), V>(m: map<K, V>, hash: K -> Hash, eq: (K, K) -> bool, key: K, value: V)
    requires Lawful(hash, eq) && Distinct(m, eq) && forall k :: k in m ==> !eq(k, key)
    ensures Distinct(m[key := value], eq)
  {
    assert forall k :: k in m ==> !eq(key, k);
  }

  lemma InvEmpty<K(!new), V>(t: Table<K, V>, hash: K -> Hash, eq: (K, K) -> bool)
    requires Lawful(hash, eq) && IsCapacity(t.capacity) && |t.ctrl| >= t.capacity == |t.slots|
    requires forall i :: 0 <= i < t.capacity ==> t.ctrl[i] == EMPTY
    requires t.growthLeft == t.capacity * 7 / 8 && t.length == 0
    ensures Inv(t, hash, eq, map[])
  {
    NothingUsed(t.ctrl, t.capacity);
  }

  // ---------- rehash ----------

  // The control bytes after the first n slots of a table were put one by one into an empty table of
  // capacity cap; None when some key found no place in its window.
  function Rehashed<K, V>(source: Table<K, V>, n: nat, cap: nat, hash: K -> Hash): Option<seq<Byte>>
    requires IsCapacity(cap) && n <= |source.ctrl| && n <= |source.slots|
    ensures Rehashed(source, n, cap, hash).Some? ==> |Rehashed(source, n, cap, hash).value| == cap + GROUP_SIZE
  {
    if n == 0 then Some(seq(cap + GROUP_SIZE, _ => EMPTY))
    else
      var before := Rehashed(source, n - 1, cap, hash);
      if before == None || !IsFull(source.ctrl[n - 1]) then before
      else
        var h := hash(source.slots[n - 1].key);
        var place := Place(before.value, cap, h, 0);
        if place == None then None
        else Some(before.value[place.value := H2(h)])
  }

  function GrownCapacity(cap: nat): nat { if cap > 0 then cap * 2 else INITIAL_CAPACITY }

  // A grow works exactly when memory is granted and every old key finds a place in its new window.
  ghost predicate GrowWorks<K(!new), V>(t: Table<K, V>, hash: K -> Hash) {
    && t.capacity <= |t.slots| && t.capacity <= |t.ctrl| && IsCapacity(GrownCapacity(t.capacity))
    && Rehashed(t, t.capacity, GrownCapacity(t.capacity), hash).Some?
  }

  // A new key with this hash has a slot to go to: some group of its window is not full.
  ghost predicate HasPlace(ctrl: seq<Byte>, cap: nat, h: Hash) {
    IsCapacity(cap) && cap <= |ctrl| && Place(ctrl, cap, h, 0).Some?
  }

  ghost predicate HasPlaceAfterGrow<K(!new), V>(t: Table<K, V>, hash: K -> Hash, h: Hash) {
    && GrowWorks(t, hash)
    && var cap := GrownCapacity(t.capacity);
       HasPlace(Rehashed(t, t.capacity, cap, hash).value, cap, h)
  }

  lemma RehashedStart<K, V>(t: Table<K, V>, cap: nat, hash: K -> Hash)
    requires IsCapacity(cap)
    ensures Rehashed(t, 0, cap, hash) == Some(seq(cap + GROUP_SIZE, _ => EMPTY))
  {
  }

  lemma RehashedStep<K, V>(t: Table<K, V>, n: nat, cap: nat, hash: K -> Hash)
    requires IsCapacity(cap) && n < |t.ctrl| && n < |t.slots|
    ensures Rehashed(t, n, cap, hash).Some? ==>
              var c, h := Rehashed(t, n, cap, hash).value, hash(t.slots[n].key);
              && (!IsFull(t.ctrl[n]) ==> Rehashed(t, n + 1, cap, hash) == Some(c))
              && (IsFull(t.ctrl[n]) && !HasPlace(c, cap, h) ==> Rehashed(t, n + 1, cap, hash) == None)
              && (IsFull(t.ctrl[n]) && HasPlace(c, cap, h) ==>
                    Rehashed(t, n + 1, cap, hash) == Some(c[Place(c, cap, h, 0).value := H2(h)]))
  {
    hide Place, H2, IsFull;
  }

  lemma {:induction false} RehashedNone<K, V>(t: Table<K, V>, n: nat, m: nat, cap: nat, hash: K -> Hash)
    requires IsCapacity(cap) && n <= m <= |t.ctrl| && m <= |t.slots| && Rehashed(t, n, cap, hash) == None
    ensures Rehashed(t, m, cap, hash) == None
  {
    hide Place;
    if n < m { RehashedNone(t, n, m - 1, cap, hash); }
  }

  // m holds the entries of the first n slots of t, which as a whole stores all.
  ghost predicate Prefix<K, V>(t: Table<K, V>, n: nat, all: map<K, V>, m: map<K, V>) {
    && n <= t.capacity && t.capacity <= |t.ctrl| && t.capacity <= |t.slots|
    && (forall k :: k in m ==> k in all && m[k] == all[k])
    && (forall k :: k in m ==> exists j :: 0 <= j < n && IsFull(t.ctrl[j]) && t.slots[j].key == k)
    && (forall j :: 0 <= j < n && IsFull(t.ctrl[j]) ==> t.slots[j].key in m)
  }

  lemma PrefixStart<K, V>(t: Table<K, V>, all: map<K, V>)
    requires t.capacity <= |t.ctrl| && t.capacity <= |t.slots|
    ensures Prefix(t, 0, all, map[])
  {
  }

  lemma PrefixPart<K, V>(t: Table<K, V>, n: nat, all: map<K, V>, m: map<K, V>)
    requires Prefix(t, n, all, m)
    ensures forall k :: k in m ==> k in all && m[k] == all[k]
  {
  }

  lemma PrefixSkip<K, V>(t: Table<K, V>, n: nat, all: map<K, V>, m: map<K, V>)
    requires Prefix(t, n, all, m) && n < t.capacity && !IsFull(t.ctrl[n])
    ensures Prefix(t, n + 1, all, m)
  {
    forall k | k in m
      ensures exists j :: 0 <= j < n + 1 && IsFull(t.ctrl[j]) && t.slots[j].key == k
    {
      var j :| 0 <= j < n && IsFull(t.ctrl[j]) && t.slots[j].key == k;
      assert IsFull(t.ctrl[j]) && t.slots[j].key == k;
    }
  }

  lemma PrefixAdd<K, V>(t: Table<K, V>, n: nat, all: map<K, V>, m: map<K, V>)
    requires Prefix(t, n, all, m) && Holds(t.ctrl, t.slots, t.capacity, all) && n < t.capacity && IsFull(t.ctrl[n])
    ensures Prefix(t, n + 1, all, m[t.slots[n].key := t.slots[n].value])
  {
    var m' := m[t.slots[n].key := t.slots[n].value];
    forall k | k in m'
      ensures exists j :: 0 <= j < n + 1 && IsFull(t.ctrl[j]) && t.slots[j].key == k
    {
      if k == t.slots[n].key {
        assert IsFull(t.ctrl[n]) && t.slots[n].key == k;
      } else {
        var j :| 0 <= j < n && IsFull(t.ctrl[j]) && t.slots[j].key == k;
        assert IsFull(t.ctrl[j]) && t.slots[j].key == k;
      }
    }
  }

  // The key of the next slot is new to the copy.
  lemma PrefixAbsent<K(!new), V>(
      t: Table<K, V>, hash: K -> Hash, eq: (K, K) -> bool, n: nat, all: map<K, V>, m: map<K, V>)
    requires Lawful(hash, eq) && Distinct(all, eq) && Holds(t.ctrl, t.slots, t.capacity, all)
    requires Prefix(t, n, all, m) && n < t.capacity && IsFull(t.ctrl[n])
    ensures Stored(m, eq, t.slots[n].key) == t.slots[n].key && t.slots[n].key !in m
  {
    var key := t.slots[n].key;
    forall k | k in m
      ensures !eq(k, key)
    {
      var j :| 0 <= j < n && IsFull(t.ctrl[j]) && t.slots[j].key == k;
      assert k != key && k in all && key in all;
    }
    StoredAbsent(m, hash, eq, key);
  }

  lemma PrefixDone<K, V>(t: Table<K, V>, all: map<K, V>, m: map<K, V>)
    requires Prefix(t, t.capacity, all, m) && Holds(t.ctrl, t.slots, t.capacity, all)
    ensures m == all
  {
    forall k | k in all
      ensures k in m
    {
      var j :| 0 <= j < t.capacity && IsFull(t.ctrl[j]) && t.slots[j].key == k;
      assert t.slots[j].key in m;
    }
  }

  // Free growth, entries and tombstones together are 7/8 of the capacity.
  lemma LoadOf<K(!new), V>(t: Table<K, V>, hash: K -> Hash, eq: (K, K) -> bool, m: map<K, V>)
    requires Inv(t, hash, eq, m)
    ensures Holds(t.ctrl, t.slots, t.capacity, m) && CountFull(t.ctrl, t.capacity) == |m|
    ensures t.growthLeft + |m| <= t.capacity * 7 / 8
  {
    hide Lawful, Distinct, Placed;
    FullSlotsAreEntries(t.ctrl, t.slots, t.capacity, m);
  }

  // Each stored key takes one full slot.
  lemma FullSlotsAreEntries<K, V>(ctrl: seq<Byte>, slots: seq<Slot<K, V>>, cap: nat, m: map<K, V>)
    requires Holds(ctrl, slots, cap, m)
    ensures CountFull(ctrl, cap) == |m|
  {
    KeysBelowAll(ctrl, slots, cap, m);
    KeysBelowCount(ctrl, slots, cap);
  }

  lemma {:induction false} KeysBelowCount<K, V>(ctrl: seq<Byte>, slots: seq<Slot<K, V>>, n: nat)
    requires n <= |ctrl| && n <= |slots|
    requires forall i :: 0 <= i < n && IsFull(ctrl[i]) ==> slots[i].key !in KeysBelow(ctrl, slots, i)
    ensures |KeysBelow(ctrl, slots, n)| == CountFull(ctrl, n)
  {
    hide KeysBelow;
    if n > 0 {
      KeysBelowStep(ctrl, slots, n - 1);
      KeysBelowCount(ctrl, slots, n - 1);
    } else {
      NoKeysBelow(ctrl, slots);
    }
  }

  lemma NoKeysBelow<K, V>(ctrl: seq<Byte>, slots: seq<Slot<K, V>>)
    ensures KeysBelow(ctrl, slots, 0) == {}
  {
  }

  lemma {:induction false} FullBelow(ctrl: seq<Byte>, n: nat, m: nat)
    requires n <= m <= |ctrl|
    ensures CountFull(ctrl, n) <= CountFull(ctrl, m)
  {
    if n < m { FullBelow(ctrl, n, m - 1); }
  }

  // The window can miss free slots: with 16 slots and start 0, all four probes fall into the first
  // group, so eight full slots refuse a ninth key although half of the table is empty.
  lemma WindowMissesRoom(ctrl: seq<Byte>, h: Hash)
    requires |ctrl| == 16 && Bits.And(H1(h), 15) == 0
    requires forall i :: 0 <= i < 8 ==> IsFull(ctrl[i])
    requires forall i :: 8 <= i < 16 ==> ctrl[i] == EMPTY
    ensures !HasPlace(ctrl, 16, h) && CountUsed(ctrl, 16) == 8 < 16 * 7 / 8
  {
    hide GroupAt, CountUsed, HasPlace;
    FirstGroupFull(ctrl, h);
    UsedSplit(ctrl, 16);
  }

  lemma FirstGroupFull(ctrl: seq<Byte>, h: Hash)
    requires |ctrl| >= 16 && Bits.And(H1(h), 15) == 0
    requires forall i :: 0 <= i < 8 ==> IsFull(ctrl[i])
    ensures !HasPlace(ctrl, 16, h)
  {
    hide GroupAt, Place;
    forall q | 0 <= q < Probes(16)
      ensures AllFull(ctrl, GroupAt(h, q, 16))
    {
      OnlyFirstGroup(h, q);
    }
    PlaceMeaning(ctrl, 16, h, 0);
  }

  lemma OnlyFirstGroup(h: Hash, q: nat)
    requires Bits.And(H1(h), 15) == 0 && q < Probes(16)
    ensures GroupAt(h, q, 16) == 0
  {
    hide Bits.And, ProbeOffset, H1;
    FirstOffsets();
    SmallAnd();
    var t := ProbeOffset(q);
    assert t == 0 || t == 1 || t == 3 || t == 6;
    assert Bits.And(Bits.And(H1(h), 16 - 1) + t, 16 - 1) == t;
  }

  lemma FirstOffsets()
    ensures ProbeOffset(0) == 0 && ProbeOffset(1) == 1 && ProbeOffset(2) == 3 && ProbeOffset(3) == 6
  {
  }

  lemma SmallAnd()
    ensures Bits.And(0, 15) == 0 && Bits.And(1, 15) == 1 && Bits.And(3, 15) == 3 && Bits.And(6, 15) == 6
  {
  }

  lemma {:induction false} UsedSplit(ctrl: seq<Byte>, n: nat)
    requires n <= |ctrl| == 16
    requires forall i :: 0 <= i < 8 ==> IsFull(ctrl[i])
    requires forall i :: 8 <= i < 16 ==> ctrl[i] == EMPTY
    ensures CountUsed(ctrl, n) == if n <= 8 then n else 8
  {
    if n > 0 {
      assert IsFull(ctrl[n - 1]) ==> ctrl[n - 1] != EMPTY;
      UsedSplit(ctrl, n - 1);
    }
  }

  // ---------- the map ----------

  // memset(ctrl, CTRL_EMPTY, n)
  method FillEmpty(ctrl: array<Byte>, n: nat)
    requires n <= ctrl.Length
    modifies ctrl
    ensures forall i :: 0 <= i < n ==> ctrl[i] == EMPTY
  {
    for i := 0 to n
      invariant forall j :: 0 <= j < i ==> ctrl[j] == EMPTY
    {
      ctrl[i] := EMPTY;
    }
  }

  class HashMap<K(0, ==, !new), V(0)> {
    const hash: K -> Hash
    const eq: (K, K) -> bool
    var ctrl: array<Byte>
    var slots: array<Slot<K, V>>
    var length: nat
    var capacity: nat
    var growthLeft: nat
    ghost var model: map<K, V>

    function Snapshot(): Table<K, V>
      reads this, ctrl, slots
    {
      Table(ctrl[..], slots[..], capacity, growthLeft, length)
    }

    ghost predicate Valid()
      reads this, ctrl, slots
    {
      (ctrl as object) != (slots as object) && Inv(Snapshot(), hash, eq, model)
    }

    constructor (hash: K -> Hash, eq: (K, K) -> bool)
      requires Lawful(hash, eq)
      ensures Valid() && model == map[] && this.hash == hash && this.eq == eq
      ensures capacity == growthLeft == length == ctrl.Length == slots.Length == 0
      ensures fresh(ctrl) && fresh(slots)
    {
      this.hash, this.eq := hash, eq;
      ctrl, slots := new Byte[0], new Slot<K, V>[0];
      length, capacity, growthLeft, model := 0, 0, 0, map[];
    }

    lemma SnapshotFacts()
      requires Valid()
      ensures Lawful(hash, eq) && Distinct(model, eq) && length == |model|
      ensures capacity == slots.Length <= ctrl.Length && (capacity == 0 ==> model == map[] && growthLeft == 0)
      ensures capacity > 0 ==> IsCapacity(capacity)
      ensures (ctrl as object) != (slots as object)
    {
    }

    // The loop over the matches of one group. The source clears the lowest bit first in get only.
    method ScanGroup(g: nat, key: K, h2: Byte) returns (found: bool, idx: nat)
      requires capacity == slots.Length <= ctrl.Length && g + 8 <= capacity && IsFull(h2)
      ensures found ==> g <= idx < g + 8 && IsFull(ctrl[idx]) && eq(slots[idx].key, key)
      ensures !found ==> NotInGroup(ctrl[..], slots[..], eq, key, h2, g)
    {
      hide LanesOf, MatchH2, GroupWord, ClearMatch;
      var word := GroupWord(ctrl[..], g);
      var m := MatchH2(word, h2.bits);
      ghost var lanes := LanesOf(m);
      ghost var next := 0;
      forall i | g <= i < g + 8
        ensures ctrl[i] == h2 ==> lanes.At(i - g)
      {
        MatchH2Slots(ctrl[..], g, h2, i - g);
      }
      while m != 0
        invariant next <= 8
        invariant forall i :: 0 <= i < 8 ==> (Hit(m, i) <==> lanes.At(i) && i >= next)
        invariant forall i :: g <= i < g + next && ctrl[i] == h2 ==> !eq(slots[i].key, key)
        decreases 8 - next
      {
        NoHits(m);
        var offset := MatchFirst(m);
        idx := g + offset;
        MatchH2Slots(ctrl[..], g, h2, offset);
        if eq(slots[idx].key, key) {
          return true, idx;
        }
        ClearedLanes(m, offset);
        m := m & (m - 1);
        m := ClearMatch(m, offset);
        next := offset + 1;
      }
      NoHits(m);
      return false, 0;
    }

    lemma AbsentAfter(key: K, p: nat)
      requires Valid() && IsCapacity(capacity) && capacity == slots.Length <= ctrl.Length && p <= Probes(capacity)
      requires NotBefore(ctrl[..], slots[..], capacity, hash, eq, key, p)
      requires p == Probes(capacity) || (p > 0 && !NoEmpty(ctrl[..], GroupAt(hash(key), p - 1, capacity)))
      ensures forall k :: k in model ==> !eq(k, key)
    {
      hide Lawful, Distinct, Placed, Holds, NotBefore, GroupAt, Probes;
      KnownAbsent(ctrl[..], slots[..], capacity, hash, eq, model, key, p);
    }

    lemma EmptySeenHere(g: nat)
      requires Valid() && capacity == slots.Length <= ctrl.Length && g + 8 <= capacity
      ensures MatchEmpty(GroupWord(ctrl[..], g)) != 0 <==> !NoEmpty(ctrl[..], g)
    {
      hide Lawful, Distinct, Holds, MatchEmpty, GroupWord, Reachable;
      EmptySeen(ctrl[..], g);
    }

    // One round of a probe loop.
    method ProbeGroup(g: nat, key: K, h2: Byte) returns (found: bool, idx: nat, sawEmpty: bool)
      requires Valid() && capacity == slots.Length <= ctrl.Length && g + 8 <= capacity && IsFull(h2)
      ensures found ==> g <= idx < g + 8 && IsFull(ctrl[idx]) && eq(slots[idx].key, key)
      ensures !found ==> NotInGroup(ctrl[..], slots[..], eq, key, h2, g)
      ensures !found ==> sawEmpty == !NoEmpty(ctrl[..], g)
    {
      hide Inv, NotInGroup, GroupWord, MatchEmpty, NoEmpty, IsFull;
      found, idx := ScanGroup(g, key, h2);
      EmptySeenHere(g);
      sawEmpty := MatchEmpty(GroupWord(ctrl[..], g)) != 0;
    }

    // The probe loop of get and of remove.
    method Find(key: K) returns (found: bool, idx: nat)
      requires Valid() && capacity > 0
      ensures found ==> idx < capacity && IsFull(ctrl[idx]) && eq(slots[idx].key, key)
      ensures !found ==> forall k :: k in model ==> !eq(k, key)
    {
      hide GroupAt, Probes, H2, NotInGroup, GroupWord, MatchEmpty, IsFull, Inv, Lawful, Distinct, NoEmpty,
           NotBefore;
      SnapshotFacts();
      var h := hash(key);
      var maxProbes := Probes(capacity);
      NotBeforeStep(ctrl[..], slots[..], capacity, hash, eq, key, 0);
      for probe := 0 to maxProbes
        invariant NotBefore(ctrl[..], slots[..], capacity, hash, eq, key, probe)
      {
        var g := GroupAt(h, probe, capacity);
        var sawEmpty;
        found, idx, sawEmpty := ProbeGroup(g, key, H2(h));
        if found { return; }
        NotBeforeStep(ctrl[..], slots[..], capacity, hash, eq, key, probe);
        if sawEmpty {
          AbsentAfter(key, probe + 1);
          return false, 0;
        }
      }
      AbsentAfter(key, maxProbes);
      return false, 0;
    }

    method Get(key: K) returns (r: Option<V>)
      requires Valid()
      ensures r == if Stored(model, eq, key) in model then Some(model[Stored(model, eq, key)]) else None
    {
      if length == 0 {
        return None;
      }
      var found, idx := Find(key);
      if !found {
        StoredAbsent(model, hash, eq, key);
        return None;
      }
      StoredIs(model, hash, eq, key, slots[idx].key);
      return Some(slots[idx].value);
    }

    method Remove(key: K) returns (removed: bool)
      requires Valid()
      modifies this, ctrl
      ensures Valid() && ctrl == old(ctrl) && slots == old(slots) && capacity == old(capacity)
      ensures removed <==> Stored(old(model), eq, key) in old(model)
      ensures model == old(model) - {Stored(old(model), eq, key)}
    {
      hide Inv, Stored, Lawful, Distinct, IsFull;
      SnapshotFacts();
      if length == 0 {
        StoredAbsent(model, hash, eq, key);
        return false;
      }
      var found, idx := Find(key);
      if !found {
        StoredAbsent(model, hash, eq, key);
        return false;
      }
      DeleteAt(idx);
      StoredIs(old(model), hash, eq, key, slots[idx].key);
      return true;
    }

    method DeleteAt(idx: nat)
      requires Valid() && idx < capacity == slots.Length <= ctrl.Length && IsFull(ctrl[idx])
      modifies this`length, this`model, ctrl
      ensures Valid() && slots[idx].key in old(model) && model == old(model) - {slots[idx].key}
    {
      hide Inv, IsFull;
      InvRemove(Snapshot(), hash, eq, model, idx);
      ghost var after := ctrl[..][idx := DELETED];
      ctrl[idx] := DELETED;
      length := length - 1;
      model := model - {slots[idx].key};
      assert Snapshot() == old(Snapshot()).(ctrl := after, length := old(length) - 1);
    }

    method Clear()
      requires Valid()
      modifies this, ctrl
      ensures Valid() && ctrl == old(ctrl) && slots == old(slots) && capacity == old(capacity)
      ensures model == map[]
    {
      hide Inv, Lawful, Distinct;
      SnapshotFacts();
      if capacity > 0 {
        FillEmpty(ctrl, capacity);
        length := 0;
        model := map[];
        growthLeft := capacity * 7 / 8;
        InvEmpty(Snapshot(), hash, eq);
      }
    }

    // The probe loop of set and the insertion after it, for a table that may take one more entry.
    method Insert(key: K, value: V) returns (ok: bool)
      requires Valid() && growthLeft > 0
      modifies this, ctrl, slots
      ensures Valid() && ctrl == old(ctrl) && slots == old(slots) && capacity == old(capacity)
      ensures capacity > 0 && IsCapacity(capacity) && capacity <= ctrl.Length
      ensures ok <==> Stored(old(model), eq, key) in old(model) || HasPlace(old(ctrl[..]), capacity, hash(key))
      ensures ok ==> model == old(model)[Stored(old(model), eq, key) := value]
      ensures !ok ==> model == old(model) && Snapshot() == old(Snapshot())
      ensures growthLeft >= old(growthLeft) - 1
      ensures ok ==> growthLeft + |model| >= old(growthLeft) + |old(model)|
      ensures ok && Stored(old(model), eq, key) !in old(model) ==>
                ctrl[..] == old(ctrl[..])[Place(old(ctrl[..]), capacity, hash(key), 0).value := H2(hash(key))]
    {
      hide Inv, Stored, Lawful, Distinct, Place;
      SnapshotFacts();
      var found, idx, insertIdx := Probe(key);
      if found {
        SlotInModel(idx);
        StoredIs(model, hash, eq, key, slots[idx].key);
        UpdateAt(idx, value);
        return true;
      }
      StoredAbsent(model, hash, eq, key);
      if insertIdx.Some? {
        PlaceReachable(ctrl[..], capacity, hash(key), 0);
        InsertAt(insertIdx.value, key, value);
        return true;
      }
      return false;
    }

    method VacantIn(g: nat) returns (r: Option<nat>)
      requires g + 8 <= ctrl.Length
      ensures r == var n := FirstVacant(ctrl[..], g, 0); if n < 8 then Some(g + n) else None
    {
      hide GroupWord, MatchEmptyOrDeleted, FirstVacant, MatchFirst;
      VacantSeen(ctrl[..], g);
      var vacant := MatchEmptyOrDeleted(GroupWord(ctrl[..], g));
      return if vacant != 0 then Some(g + MatchFirst(vacant)) else None;
    }

    lemma SlotInModel(idx: nat)
      requires Valid() && idx < capacity && IsFull(ctrl[idx])
      ensures slots[idx].key in model
    {
      hide Lawful, Distinct, Placed;
    }

    // The probe loop of set: the slot of the key, or the slot to insert it at.
    method Probe(key: K) returns (found: bool, idx: nat, insertIdx: Option<nat>)
      requires Valid() && capacity > 0 && capacity <= ctrl.Length && IsCapacity(capacity)
      ensures found ==> idx < capacity && IsFull(ctrl[idx]) && eq(slots[idx].key, key)
      ensures !found ==> forall k :: k in model ==> !eq(k, key)
      ensures !found ==> insertIdx == Place(ctrl[..], capacity, hash(key), 0)
    {
      ghost var p;
      found, idx, insertIdx, p := ProbeLoop(key);
      if !found { CandidateFinal(ctrl[..], capacity, hash(key), p, insertIdx); }
    }

    method ProbeLoop(key: K) returns (found: bool, idx: nat, insertIdx: Option<nat>, ghost p: nat)
      requires Valid() && capacity > 0 && capacity <= ctrl.Length && IsCapacity(capacity)
      ensures found ==> idx < capacity && IsFull(ctrl[idx]) && eq(slots[idx].key, key)
      ensures !found ==> forall k :: k in model ==> !eq(k, key)
      ensures !found ==> (insertIdx.Some? || p == Probes(capacity))
                         && Candidate(ctrl[..], capacity, hash(key), p, insertIdx)
    {
      hide GroupAt, Probes, H2, NotInGroup, IsFull, Inv, Lawful, Distinct, NoEmpty, NotBefore, Candidate, FirstVacant;
      SnapshotFacts();
      var h := hash(key);
      var maxProbes := Probes(capacity);
      idx, insertIdx, p := 0, None, 0;
      NotBeforeStep(ctrl[..], slots[..], capacity, hash, eq, key, 0);
      CandidateStart(ctrl[..], capacity, h);
      for probe := 0 to maxProbes
        invariant NotBefore(ctrl[..], slots[..], capacity, hash, eq, key, probe)
        invariant Candidate(ctrl[..], capacity, h, probe, insertIdx)
      {
        var g := GroupAt(h, probe, capacity);
        var sawEmpty;
        found, idx, sawEmpty := ProbeGroup(g, key, H2(h));
        if found { return; }
        NotBeforeStep(ctrl[..], slots[..], capacity, hash, eq, key, probe);
        CandidateStep(ctrl[..], capacity, h, probe, insertIdx);
        if insertIdx == None {
          insertIdx := VacantIn(g);
        }
        p := probe + 1;
        if sawEmpty {
          EmptyIsVacant(ctrl[..], g);
          AbsentAfter(key, p);
          return;
        }
      }
      AbsentAfter(key, maxProbes);
      found, p := false, maxProbes;
    }

    method UpdateAt(idx: nat, value: V)
      requires Valid() && idx < capacity == slots.Length <= ctrl.Length && IsFull(ctrl[idx])
      modifies this`model, slots
      ensures Valid() && model == old(model)[old(slots[idx].key) := value]
    {
      hide Inv, IsFull;
      InvUpdate(Snapshot(), hash, eq, model, idx, value);
      ghost var after := slots[..][idx := Slot(slots[idx].key, value)];
      model := model[slots[idx].key := value];
      slots[idx] := Slot(slots[idx].key, value);
      assert slots[..] == after;
      assert ctrl[..] == old(ctrl[..]);
      assert Snapshot() == old(Snapshot()).(slots := after);
    }

    method InsertAt(idx: nat, key: K, value: V)
      requires Valid() && growthLeft > 0 && IsCapacity(capacity)
      requires idx < capacity == slots.Length <= ctrl.Length && !IsFull(ctrl[idx])
      requires Reachable(ctrl[..], capacity, hash(key), idx) && forall k :: k in model ==> !eq(k, key)
      modifies this`model, this`length, this`growthLeft, ctrl, slots
      ensures Valid() && model == old(model)[key := value] && growthLeft >= old(growthLeft) - 1
      ensures ctrl[..] == old(ctrl[..])[idx := H2(hash(key))]
    {
      hide Inv, IsFull, Reachable, H2;
      var h2 := H2(hash(key));
      InvInsert(Snapshot(), hash, eq, model, idx, key, value);
      ghost var ctrlAfter := ctrl[..][idx := h2];
      ghost var slotsAfter := slots[..][idx := Slot(key, value)];
      if ctrl[idx] == EMPTY {
        growthLeft := growthLeft - 1;
      }
      ctrl[idx] := h2;
      slots[idx] := Slot(key, value);
      length := length + 1;
      model := model[key := value];
      assert ctrl[..] == ctrlAfter && slots[..] == slotsAfter;
      assert Snapshot() == Table(ctrlAfter, slotsAfter, capacity, growthLeft, length);
    }

    // Sets the value of a key. It fails exactly when no memory is granted for a needed grow, when the
    // rehash loses a key, or when the key is new and every group of its window is full. room says
    // whether the arena grants the memory.
    method Set(key: K, value: V, room: bool) returns (ok: bool)
      requires Valid()
      modifies this, ctrl, slots
      ensures Valid() && ((ctrl == old(ctrl) && slots == old(slots)) || (fresh(ctrl) && fresh(slots)))
      ensures ok ==> model == old(model)[Stored(old(model), eq, key) := value]
      ensures !ok ==> forall k :: k in model ==> k in old(model) && model[k] == old(model)[k]
      ensures !ok && (room ==> GrowWorks(old(Snapshot()), hash)) ==> model == old(model)
      ensures !ok && !room ==> Snapshot() == old(Snapshot())
      ensures ok && old(growthLeft) == 0 ==>
        && capacity == GrownCapacity(old(capacity))
        && growthLeft + |model| >= capacity * 7 / 8
      ensures ok <==>
        if old(growthLeft) > 0 then
          Stored(old(model), eq, key) in old(model) || HasPlace(old(ctrl[..]), old(capacity), hash(key))
        else
          && room && GrowWorks(old(Snapshot()), hash)
          && (Stored(old(model), eq, key) in old(model) || HasPlaceAfterGrow(old(Snapshot()), hash, hash(key)))
      ensures old(growthLeft) > 0 ==>
        && ctrl == old(ctrl) && slots == old(slots) && capacity == old(capacity)
        && growthLeft >= old(growthLeft) - 1
        && (!ok ==> model == old(model) && Snapshot() == old(Snapshot()))
        && (ok && Stored(old(model), eq, key) !in old(model) ==>
              && HasPlace(old(ctrl[..]), capacity, hash(key))
              && ctrl[..] == old(ctrl[..])[Place(old(ctrl[..]), capacity, hash(key), 0).value := H2(hash(key))])
      decreases if growthLeft == 0 then 2 else 0
    {
      hide Inv, Stored, Lawful, Distinct, IsFull, H2, Place, Rehashed;
      if growthLeft == 0 {
        ok := Grow(room);
        if !ok { return; }
      }
      ok := Insert(key, value);
    }

    lemma EntryFacts()
      requires Valid()
      ensures capacity == slots.Length <= ctrl.Length
      ensures KeysBelow(ctrl[..], slots[..], capacity) == model.Keys
      ensures forall i :: 0 <= i < capacity && IsFull(ctrl[i]) ==>
                && slots[i].key in model && model[slots[i].key] == slots[i].value
                && slots[i].key !in KeysBelow(ctrl[..], slots[..], i)
    {
      hide Lawful, Distinct, Placed;
      if capacity > 0 {
        KeysBelowAll(ctrl[..], slots[..], capacity, model);
      }
    }

    lemma GrowFacts()
      requires Valid() && growthLeft == 0
      ensures Lawful(hash, eq) && Distinct(model, eq) && Holds(ctrl[..], slots[..], capacity, model)
      ensures IsCapacity(GrownCapacity(capacity)) && capacity <= ctrl.Length && capacity == slots.Length
      ensures CountFull(ctrl[..], capacity) == |model| <= capacity * 7 / 8
    {
      hide Inv, Lawful, Distinct, Holds, CountFull;
      SnapshotFacts();
      LoadOf(Snapshot(), hash, eq, model);
    }

    // Free growth, used slots and tombstones together are 7/8 of the capacity.
    lemma LoadBound()
      requires Valid()
      ensures capacity <= ctrl.Length && capacity == slots.Length
      ensures growthLeft + |model| <= capacity * 7 / 8 && CountFull(ctrl[..], capacity) == |model|
    {
      hide Inv, Holds, CountFull;
      SnapshotFacts();
      LoadOf(Snapshot(), hash, eq, model);
    }

    // Doubles the capacity and sets every entry again. None of these sets can grow in turn.
    method Grow(room: bool) returns (ok: bool)
      requires Valid() && growthLeft == 0
      modifies this
      ensures Valid()
      ensures ok <==> room && GrowWorks(old(Snapshot()), hash)
      ensures ok ==>
        && model == old(model) && growthLeft > 0 && capacity == GrownCapacity(old(capacity))
        && growthLeft + |model| == capacity * 7 / 8
        && ctrl[..] == Rehashed(old(Snapshot()), old(capacity), capacity, hash).value
      ensures forall k :: k in model ==> k in old(model) && model[k] == old(model)[k]
      ensures !room ==> ctrl == old(ctrl) && model == old(model) && Snapshot() == old(Snapshot())
      ensures (ctrl == old(ctrl) && slots == old(slots)) || (fresh(ctrl) && fresh(slots))
      decreases 1
    {
      hide Inv, Stored, Lawful, Distinct, IsFull, H2, Place, Rehashed, Holds, HasPlace, Prefix;
      if !room {
        return false;
      }
      GrowFacts();
      ghost var t := Snapshot();
      ghost var all := model;
      var oldCtrl, oldSlots, oldCap := ctrl, slots, capacity;
      Renew(GrownCapacity(capacity));
      PrefixStart(t, all);
      RehashedStart(t, capacity, hash);
      for i := 0 to oldCap
        invariant Valid() && capacity == GrownCapacity(oldCap)
        invariant fresh(ctrl) && fresh(slots)
        invariant oldCtrl[..] == t.ctrl && oldSlots[..] == t.slots
        invariant Prefix(t, i, all, model)
        invariant growthLeft + CountFull(t.ctrl, i) >= capacity * 7 / 8
        invariant Rehashed(t, i, capacity, hash) == Some(ctrl[..])
      {
        RehashedStep(t, i, capacity, hash);
        if IsFull(oldCtrl[i]) {
          PrefixAbsent(t, hash, eq, i, all, model);
          FullBelow(t.ctrl, i + 1, oldCap);
          PrefixAdd(t, i, all, model);
          ok := Set(oldSlots[i].key, oldSlots[i].value, false);
          if !ok {
            RehashedNone(t, i + 1, oldCap, capacity, hash);
            PrefixPart(t, i, all, model);
            return;
          }
        } else {
          PrefixSkip(t, i, all, model);
        }
      }
      PrefixDone(t, all, model);
      LoadBound();
      return true;
    }

    method Renew(cap: nat)
      requires Valid() && IsCapacity(cap)
      modifies this
      ensures Valid() && model == map[] && capacity == cap && growthLeft == cap * 7 / 8
      ensures fresh(ctrl) && fresh(slots) && ctrl[..] == seq(cap + GROUP_SIZE, _ => EMPTY)
    {
      hide Inv, Lawful, Distinct;
      SnapshotFacts();
      ctrl := new Byte[cap + GROUP_SIZE];
      FillEmpty(ctrl, cap + GROUP_SIZE);
      slots := new Slot<K, V>[cap];
      capacity, length, growthLeft, model := cap, 0, cap * 7 / 8, map[];
      InvEmpty(Snapshot(), hash, eq);
    }
  }

  // ---------- iteration ----------

  // The keys of the full slots below n.
  ghost function KeysBelow<K, V>(ctrl: seq<Byte>, slots: seq<Slot<K, V>>, n: nat): set<K>
    requires n <= |ctrl| && n <= |slots|
  {
    set i | 0 <= i < n && IsFull(ctrl[i]) :: slots[i].key
  }

  lemma KeysBelowStep<K, V>(ctrl: seq<Byte>, slots: seq<Slot<K, V>>, n: nat)
    requires n < |ctrl| && n < |slots|
    ensures KeysBelow(ctrl, slots, n + 1)
         == KeysBelow(ctrl, slots, n) + if IsFull(ctrl[n]) then {slots[n].key} else {}
  {
  }

  lemma KeysBelowAll<K, V>(ctrl: seq<Byte>, slots: seq<Slot<K, V>>, cap: nat, m: map<K, V>)
    requires Holds(ctrl, slots, cap, m)
    ensures KeysBelow(ctrl, slots, cap) == m.Keys
    ensures forall n :: 0 <= n < cap && IsFull(ctrl[n]) ==> slots[n].key !in KeysBelow(ctrl, slots, n)
  {
    forall k | k in m
      ensures k in KeysBelow(ctrl, slots, cap)
    {
      var i :| 0 <= i < cap && IsFull(ctrl[i]) && slots[i].key == k;
      assert slots[i].key in KeysBelow(ctrl, slots, cap);
    }
  }

  // An iterator over a map that does not change meanwhile.
  class MapIterator<K(0, ==, !new), V(0)> {
    const source: HashMap<K, V>
    var index: nat
    ghost var seen: set<K>

    ghost predicate Valid()
      reads this, source, source.ctrl, source.slots
    {
      && source.Valid() && index <= source.capacity
      && source.capacity <= source.slots.Length && source.capacity <= source.ctrl.Length
      && seen == KeysBelow(source.ctrl[..], source.slots[..], index)
    }

    constructor (source: HashMap<K, V>)
      requires source.Valid()
      ensures Valid() && this.source == source && seen == {}
    {
      this.source := source;
      index := 0;
      seen := {};
      new;
      source.SnapshotFacts();
    }

    // Delivers an entry that was not delivered before, until all have been.
    method Next() returns (more: bool, entry: Option<Slot<K, V>>)
      requires Valid()
      modifies this
      ensures Valid() && more == entry.Some?
      ensures more ==>
        && entry.value.key in source.model && source.model[entry.value.key] == entry.value.value
        && entry.value.key !in old(seen) && seen == old(seen) + {entry.value.key}
      ensures !more ==> seen == old(seen) == source.model.Keys
    {
      hide KeysBelow, Lawful, Distinct, Placed, Holds, IsFull;
      source.EntryFacts();
      while index < source.capacity
        invariant Valid() && seen == old(seen)
        decreases source.capacity - index
      {
        KeysBelowStep(source.ctrl[..], source.slots[..], index);
        var i := index;
        index := index + 1;
        if IsFull(source.ctrl[i]) {
          seen := seen + {source.slots[i].key};
          return true, Some(source.slots[i]);
        }
      }
      return false, None;
    }
  }
}
