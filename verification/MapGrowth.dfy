/** When a grow of the hash map cannot fail: a key finds a place as long as the groups of its window have more
    slots than there are other entries, and how many groups a window has. */
module MapGrowth {
  import opened Arithmetic
  import opened Bits
  import opened Swar
  import opened SwissTable
  import opened Wrappers

  // ---------- counting ----------

  // The groups that are looked at for a hash, each of them once.
  ghost function Window(h: Hash, cap: nat): set<nat>
    requires IsCapacity(cap)
  {
    set p | 0 <= p < Probes(cap) :: GroupAt(h, p, cap)
  }

  ghost function GroupsBelow(w: set<nat>, n: nat): set<nat> {
    set g | g in w && g < 8 * n
  }

  lemma EightMore(ctrl: seq<Byte>, g: nat)
    requires g + 8 <= |ctrl| && AllFull(ctrl, g)
    ensures CountFull(ctrl, g + 8) == CountFull(ctrl, g) + 8
  {
    hide IsFull;
    assert IsFull(ctrl[g]) && IsFull(ctrl[g + 1]) && IsFull(ctrl[g + 2]) && IsFull(ctrl[g + 3]);
    assert IsFull(ctrl[g + 4]) && IsFull(ctrl[g + 5]) && IsFull(ctrl[g + 6]) && IsFull(ctrl[g + 7]);
    assert CountFull(ctrl, g + 2) == CountFull(ctrl, g) + 2;
    assert CountFull(ctrl, g + 4) == CountFull(ctrl, g + 2) + 2;
    assert CountFull(ctrl, g + 6) == CountFull(ctrl, g + 4) + 2;
  }

  // Full groups have eight full slots each.
  lemma {:induction false} FullGroups(ctrl: seq<Byte>, w: set<nat>, n: nat)
    requires 8 * n <= |ctrl|
    requires forall g :: g in w && g < 8 * n ==> g % 8 == 0 && g + 8 <= |ctrl| && AllFull(ctrl, g)
    ensures 8 * |GroupsBelow(w, n)| <= CountFull(ctrl, 8 * n)
  {
    hide AllFull, CountFull;
    if n == 0 {
      assert GroupsBelow(w, 0) == {};
    } else {
      var g := 8 * (n - 1);
      FullGroups(ctrl, w, n - 1);
      if g in w {
        EightMore(ctrl, g);
        assert GroupsBelow(w, n) == GroupsBelow(w, n - 1) + {g};
      } else {
        FullBelow(ctrl, g, g + 8);
        assert GroupsBelow(w, n) == GroupsBelow(w, n - 1);
      }
    }
  }

  // Where fewer slots are full than the window has, a new key has a place.
  lemma RoomInWindow(ctrl: seq<Byte>, cap: nat, h: Hash)
    requires IsCapacity(cap) && cap <= |ctrl| && CountFull(ctrl, cap) < 8 * |Window(h, cap)|
    ensures HasPlace(ctrl, cap, h)
  {
    hide GroupAt, Place, CountFull, AllFull, Probes, Window;
    PlaceMeaning(ctrl, cap, h, 0);
    if forall q :: 0 <= q < Probes(cap) ==> AllFull(ctrl, GroupAt(h, q, cap)) { FullWindow(ctrl, cap, h); }
  }

  lemma FullWindow(ctrl: seq<Byte>, cap: nat, h: Hash)
    requires IsCapacity(cap) && cap <= |ctrl|
    requires forall q :: 0 <= q < Probes(cap) ==> AllFull(ctrl, GroupAt(h, q, cap))
    ensures 8 * |Window(h, cap)| <= CountFull(ctrl, cap)
  {
    hide GroupAt, CountFull, AllFull, Probes;
    var w := Window(h, cap);
    forall g | g in w
      ensures g % 8 == 0 && g + 8 <= cap && AllFull(ctrl, g)
    {
      var p :| 0 <= p < Probes(cap) && GroupAt(h, p, cap) == g;
    }
    FullGroups(ctrl, w, cap / 8);
    assert GroupsBelow(w, cap / 8) == w;
  }

  lemma {:induction false} OneMoreFull(ctrl: seq<Byte>, i: nat, c: Byte, n: nat)
    requires i < n <= |ctrl| && !IsFull(ctrl[i]) && IsFull(c)
    ensures CountFull(ctrl[i := c], n) == CountFull(ctrl, n) + 1
  {
    hide IsFull;
    if n == i + 1 {
      SameFull(ctrl, ctrl[i := c], i);
    } else {
      OneMoreFull(ctrl, i, c, n - 1);
    }
  }

  lemma {:induction false} SameFull(a: seq<Byte>, b: seq<Byte>, n: nat)
    requires n <= |a| && n <= |b| && forall i :: 0 <= i < n ==> a[i] == b[i]
    ensures CountFull(a, n) == CountFull(b, n)
  {
    if n > 0 { SameFull(a, b, n - 1); }
  }

  lemma {:induction false} NothingFull(n: nat, m: nat)
    requires n <= m
    ensures CountFull(seq(m, _ => EMPTY), n) == 0
  {
    if n > 0 { NothingFull(n - 1, m); }
  }

  // Every stored key has more slots in its window than there are other entries.
  ghost predicate Roomy<K(!new), V>(m: map<K, V>, hash: K -> Hash, cap: nat)
    requires IsCapacity(cap)
  {
    forall k :: k in m ==> |m| - 1 < 8 * |Window(hash(k), cap)|
  }

  // Then the rehash places all of them, and nothing else.
  lemma {:induction false} RehashPlacesAll<K(!new), V>(
      t: Table<K, V>, m: map<K, V>, hash: K -> Hash, cap: nat, n: nat)
    requires Holds(t.ctrl, t.slots, t.capacity, m) && n <= t.capacity
    requires IsCapacity(cap) && Roomy(m, hash, cap)
    ensures Rehashed(t, n, cap, hash).Some?
    ensures CountFull(Rehashed(t, n, cap, hash).value, cap) == CountFull(t.ctrl, n)
  {
    hide Place, IsFull, CountFull, Window;
    if n == 0 {
      RehashedStart(t, cap, hash);
      NothingFull(cap, cap + GROUP_SIZE);
      NoneBelow(t.ctrl);
    } else {
      RehashPlacesAll(t, m, hash, cap, n - 1);
      var before, h := Rehashed(t, n - 1, cap, hash).value, hash(t.slots[n - 1].key);
      RehashedStep(t, n - 1, cap, hash);
      CountNext(t.ctrl, n - 1);
      if IsFull(t.ctrl[n - 1]) {
        FullSlotsAreEntries(t.ctrl, t.slots, t.capacity, m);
        FullBelow(t.ctrl, n, t.capacity);
        RoomInWindow(before, cap, h);
        OneMoreFull(before, Place(before, cap, h, 0).value, H2(h), cap);
      }
    }
  }

  lemma NoneBelow(ctrl: seq<Byte>)
    ensures CountFull(ctrl, 0) == 0
  {
  }

  lemma CountNext(ctrl: seq<Byte>, n: nat)
    requires n < |ctrl|
    ensures CountFull(ctrl, n + 1) == CountFull(ctrl, n) + if IsFull(ctrl[n]) then 1 else 0
  {
  }

  // A grow that is granted memory works when every key has more slots in its new window than there are
  // other entries; and then a new key has a place when its window has more slots than there are entries.
  lemma GrowWorksWhenRoomy<K(!new), V>(t: Table<K, V>, hash: K -> Hash, eq: (K, K) -> bool, m: map<K, V>)
    requires Inv(t, hash, eq, m) && IsCapacity(GrownCapacity(t.capacity)) && Roomy(m, hash, GrownCapacity(t.capacity))
    ensures GrowWorks(t, hash)
    ensures forall h :: |m| < 8 * |Window(h, GrownCapacity(t.capacity))| ==> HasPlaceAfterGrow(t, hash, h)
  {
    hide Window, Roomy, Lawful, Distinct, Placed, Rehashed, HasPlace, CountFull;
    var cap := GrownCapacity(t.capacity);
    if t.capacity == 0 {
      RehashedStart(t, cap, hash);
      NothingFull(cap, cap + GROUP_SIZE);
    } else {
      RehashPlacesAll(t, m, hash, cap, t.capacity);
      FullSlotsAreEntries(t.ctrl, t.slots, t.capacity, m);
    }
    var ctrl := Rehashed(t, t.capacity, cap, hash).value;
    forall h | |m| < 8 * |Window(h, cap)|
      ensures HasPlace(ctrl, cap, h)
    {
      RoomInWindow(ctrl, cap, h);
    }
  }

  // ---------- the groups of a window ----------

  // a & (2^k - 1)
  lemma {:induction false} AndMask(a: nat, k: nat)
    ensures And(a, Pow2(k) - 1) == a % Pow2(k)
    decreases k
  {
    if k == 0 {
      AndBound(a, 0);
    } else {
      AndMask(a / 2, k - 1);
      var p := Pow2(k - 1);
      assert (Pow2(k) - 1) / 2 == p - 1 && (Pow2(k) - 1) % 2 == 1;
      HalvesRemainder(a / 2, a % 2, p);
      if a == 0 { ZeroRemainder(p); }
    }
  }

  lemma HalvesRemainder(half: nat, bit: nat, p: nat)
    requires p > 0 && bit < 2
    ensures (2 * half + bit) % (2 * p) == 2 * (half % p) + bit
  {
    var q, r := half / p, half % p;
    assert half == q * p + r;
    assert 2 * (q * p) == q * (2 * p);
    DivMod(2 * half + bit, 2 * p, q, 2 * r + bit);
  }

  lemma ZeroRemainder(p: nat)
    requires p > 0
    ensures 0 % p == 0
  {
  }

  // Offsets that are at least eight slots apart, around the end as well, lead to different groups.
  lemma GroupsApart(h: Hash, p: nat, q: nat, cap: nat, k: nat)
    requires IsCapacity(cap) && cap == Pow2(k)
    requires ProbeOffset(p) + 8 <= ProbeOffset(q) && ProbeOffset(q) + 8 <= cap + ProbeOffset(p)
    ensures GroupAt(h, p, cap) != GroupAt(h, q, cap)
  {
    hide ProbeOffset;
    var s, a, b := H1(h) % cap, ProbeOffset(p), ProbeOffset(q);
    AndMask(H1(h), k);
    AndMask(s + a, k);
    AndMask(s + b, k);
    StillApart(s, a, b, cap);
    assert (s + a) % cap - (s + a) % cap % 8 == GroupAt(h, p, cap);
    assert (s + b) % cap - (s + b) % cap % 8 == GroupAt(h, q, cap);
  }

  lemma StillApart(s: nat, a: nat, b: nat, cap: nat)
    requires cap > 0 && a + 8 <= b && b + 8 <= cap + a
    ensures var x, y := (s + a) % cap, (s + b) % cap; x + 8 <= y || y + 8 <= x
  {
    var x, q := (s + a) % cap, (s + a) / cap;
    var d := b - a;
    assert s + b == cap * q + x + d;
    if x + d < cap {
      DivMod(s + b, cap, q, x + d);
    } else {
      DivMod(s + b, cap, q + 1, x + d - cap);
    }
  }

  // Every window has a group, and from 32 slots on it has two.
  lemma WindowHasGroups(h: Hash, cap: nat, k: nat)
    requires IsCapacity(cap) && cap == Pow2(k)
    ensures |Window(h, cap)| >= 1 && (cap >= 32 ==> |Window(h, cap)| >= 2)
  {
    hide GroupAt;
    var w := Window(h, cap);
    assert GroupAt(h, 0, cap) in w;
    if cap >= 32 {
      assert GroupAt(h, 4, cap) in w;
      FourthOffset();
      GroupsApart(h, 0, 4, cap, k);
      AtLeast(w, {GroupAt(h, 0, cap), GroupAt(h, 4, cap)});
    } else {
      AtLeast(w, {GroupAt(h, 0, cap)});
    }
  }

  lemma FourthOffset()
    ensures ProbeOffset(0) == 0 && ProbeOffset(4) == 10 && ProbeOffset(6) == 21 && ProbeOffset(8) == 36
  {
  }

  lemma AtLeast(w: set<nat>, part: set<nat>)
    requires part <= w
    ensures |part| <= |w|
  {
    assert w == part + (w - part);
  }

  // The groups of the probes 0, 4, 6 and 8 to n.
  ghost function Spread(h: Hash, cap: nat, n: nat): set<nat>
    requires IsCapacity(cap)
  {
    if n < 8 then {GroupAt(h, 0, cap), GroupAt(h, 4, cap), GroupAt(h, 6, cap)}
    else Spread(h, cap, n - 1) + {GroupAt(h, n, cap)}
  }

  ghost predicate InSpread(h: Hash, cap: nat, n: nat, g: nat, p: nat)
    requires IsCapacity(cap)
  {
    g == GroupAt(h, p, cap) && (p == 0 || p == 4 || p == 6 || 8 <= p <= n)
  }

  // They are all different as long as the offsets do not come round to the start.
  lemma {:induction false} SpreadSize(h: Hash, cap: nat, k: nat, n: nat)
    requires IsCapacity(cap) && cap == Pow2(k) && n >= 7 && ProbeOffset(n) + 8 <= cap
    ensures |Spread(h, cap, n)| == n - 4
    ensures forall g :: g in Spread(h, cap, n) ==> exists p :: InSpread(h, cap, n, g, p)
  {
    hide GroupAt, ProbeOffset;
    OffsetsApart(n);
    if n == 7 {
      FirstThree(h, cap, k);
    } else {
      SpreadSize(h, cap, k, n - 1);
      var before, g := Spread(h, cap, n - 1), GroupAt(h, n, cap);
      forall x | x in before
        ensures x != g && exists p :: InSpread(h, cap, n, x, p)
      {
        var p :| InSpread(h, cap, n - 1, x, p);
        assert InSpread(h, cap, n, x, p);
        GroupsApart(h, p, n, cap, k);
      }
      assert InSpread(h, cap, n, g, n);
    }
  }

  lemma FirstThree(h: Hash, cap: nat, k: nat)
    requires IsCapacity(cap) && cap == Pow2(k) && ProbeOffset(7) + 8 <= cap
    ensures |Spread(h, cap, 7)| == 3
    ensures forall g :: g in Spread(h, cap, 7) ==> exists p :: InSpread(h, cap, 7, g, p)
  {
    hide GroupAt;
    FourthOffset();
    assert ProbeOffset(7) == 28;
    GroupsApart(h, 0, 4, cap, k);
    GroupsApart(h, 0, 6, cap, k);
    GroupsApart(h, 4, 6, cap, k);
    assert InSpread(h, cap, 7, GroupAt(h, 0, cap), 0);
    assert InSpread(h, cap, 7, GroupAt(h, 4, cap), 4);
    assert InSpread(h, cap, 7, GroupAt(h, 6, cap), 6);
  }

  // From probe 8 on the offset grows by more than a group at each probe.
  lemma {:induction false} OffsetsApart(n: nat)
    requires n >= 7
    ensures forall p :: (p == 0 || p == 4 || p == 6 || 8 <= p < n) && n >= 8 ==> ProbeOffset(p) + 8 <= ProbeOffset(n)
    ensures n >= 8 ==> ProbeOffset(n - 1) + 8 <= ProbeOffset(n)
  {
    if n > 8 { OffsetsApart(n - 1); } else { FourthOffset(); }
  }

  // So a window has at least n - 4 groups when the n-th offset stays eight slots below the capacity.
  lemma WindowWidth(h: Hash, cap: nat, k: nat, n: nat)
    requires IsCapacity(cap) && cap == Pow2(k) && 8 <= n < Probes(cap) && ProbeOffset(n) + 8 <= cap
    ensures |Window(h, cap)| >= n - 4
  {
    hide GroupAt;
    SpreadSize(h, cap, k, n);
    forall g | g in Spread(h, cap, n)
      ensures g in Window(h, cap)
    {
      var p :| InSpread(h, cap, n, g, p);
    }
    AtLeast(Window(h, cap), Spread(h, cap, n));
  }

  // A table of any size grows when its entries fit in the groups that every window has.
  lemma GrowWorksBelow<K(!new), V>(
      t: Table<K, V>, hash: K -> Hash, eq: (K, K) -> bool, m: map<K, V>, k: nat, n: nat)
    requires Inv(t, hash, eq, m) && IsCapacity(GrownCapacity(t.capacity)) && GrownCapacity(t.capacity) == Pow2(k)
    requires 8 <= n < Probes(Pow2(k)) && ProbeOffset(n) + 8 <= Pow2(k) && |m| <= 8 * (n - 4)
    ensures GrowWorks(t, hash)
  {
    hide Inv, GrowWorks, HasPlaceAfterGrow, Window, ProbeOffset;
    forall key | key in m
      ensures |m| - 1 < 8 * |Window(hash(key), Pow2(k))|
    {
      WindowWidth(hash(key), Pow2(k), k, n);
    }
    GrowWorksWhenRoomy(t, hash, eq, m);
  }

  // A grow fails for no set of keys as long as the table has at most 128 slots.
  lemma SmallGrowWorks<K(!new), V>(t: Table<K, V>, hash: K -> Hash, eq: (K, K) -> bool, m: map<K, V>)
    requires Inv(t, hash, eq, m) && t.growthLeft == 0
    requires t.capacity in {0, 8, 16, 32, 64, 128}
    ensures GrowWorks(t, hash)
    ensures forall h :: HasPlaceAfterGrow(t, hash, h)
  {
    hide Inv, GrowWorks, HasPlaceAfterGrow, Window;
    SizeAtGrow(t, hash, eq, m);
    var cap := GrownCapacity(t.capacity);
    forall h
      ensures |m| < 8 * |Window(h, cap)|
    {
      SmallWindow(h, cap);
    }
    GrowWorksWhenRoomy(t, hash, eq, m);
  }

  lemma SizeAtGrow<K(!new), V>(t: Table<K, V>, hash: K -> Hash, eq: (K, K) -> bool, m: map<K, V>)
    requires Inv(t, hash, eq, m) && t.growthLeft == 0
    ensures |m| <= t.capacity * 7 / 8
  {
    hide Inv, Holds, CountFull;
    LoadOf(t, hash, eq, m);
  }

  // In a small table a window has more slots than the table before it had entries.
  lemma SmallWindow(h: Hash, cap: nat)
    requires cap in {8, 16, 32, 64, 128, 256}
    ensures cap / 2 * 7 / 8 < 8 * |Window(h, cap)|
  {
    hide Window, GroupAt;
    SmallPowers();
    if cap <= 32 {
      WindowHasGroups(h, cap, if cap == 8 then 3 else if cap == 16 then 4 else 5);
    } else {
      var n := if cap == 64 then 9 else if cap == 128 then 15 else 21;
      ProbeOffsetClosed(n);
      WindowWidth(h, cap, if cap == 64 then 6 else if cap == 128 then 7 else 8, n);
    }
  }

  lemma SmallPowers()
    ensures Pow2(3) == 8 && Pow2(4) == 16 && Pow2(5) == 32 && Pow2(6) == 64 && Pow2(7) == 128 && Pow2(8) == 256
  {
    assert Pow2(4) == 16;
  }

  // ---------- a run that is refused a place in a half-empty table ----------

  lemma {:induction false} NoneFullAbove(ctrl: seq<Byte>, n: nat, m: nat)
    requires n <= m <= |ctrl| && forall i :: n <= i < m ==> !IsFull(ctrl[i])
    ensures CountFull(ctrl, m) == CountFull(ctrl, n)
  {
    hide IsFull;
    if n < m { NoneFullAbove(ctrl, n, m - 1); }
  }

  lemma {:induction false} AllCounted(ctrl: seq<Byte>, n: nat)
    requires n <= |ctrl| && CountFull(ctrl, n) == n
    ensures forall i :: 0 <= i < n ==> IsFull(ctrl[i])
  {
    hide IsFull;
    if n > 0 { AllCounted(ctrl, n - 1); }
  }

  // With 16 slots, keys whose hash starts at slot 0 fill the first group and no other.
  lemma FirstGroupCrowded<K(!new), V>(
      t: Table<K, V>, hash: K -> Hash, eq: (K, K) -> bool, m: map<K, V>, h: Hash)
    requires Inv(t, hash, eq, m) && t.capacity == 16 && |m| == 8 && And(H1(h), 15) == 0
    requires forall k :: k in m ==> And(H1(hash(k)), 15) == 0
    ensures !HasPlace(t.ctrl, 16, h)
  {
    hide Lawful, Distinct, IsFull, H1, H2, GroupAt, NoEmpty, HasPlace;
    forall i | 8 <= i < 16
      ensures !IsFull(t.ctrl[i])
    {
      if IsFull(t.ctrl[i]) {
        var key := t.slots[i].key;
        var p: nat :| FoundAt(t.ctrl, 16, hash(key), i, p);
        OnlyFirstGroup(hash(key), p);
      }
    }
    FullSlotsAreEntries(t.ctrl, t.slots, 16, m);
    NoneFullAbove(t.ctrl, 8, 16);
    AllCounted(t.ctrl, 8);
    FirstGroupFull(t.ctrl, h);
  }

  // The map after the first n keys were set, and none refused so far.
  ghost predicate Filled<K(!new), V>(m: map<K, V>, keys: seq<K>, n: nat) {
    n <= |keys| && |m| == n && forall k :: k in m ==> k in keys[..n]
  }

  lemma FilledAbsent<K(!new), V>(m: map<K, V>, hash: K -> Hash, eq: (K, K) -> bool, keys: seq<K>, n: nat)
    requires Lawful(hash, eq) && Filled(m, keys, n) && n < |keys|
    requires forall i, j :: 0 <= i < j < |keys| ==> !eq(keys[i], keys[j])
    ensures Stored(m, eq, keys[n]) == keys[n] && keys[n] !in m
  {
    hide Stored;
    forall k | k in m
      ensures !eq(k, keys[n])
    {
      var i :| 0 <= i < n && keys[i] == k;
    }
    StoredAbsent(m, hash, eq, keys[n]);
  }

  lemma FilledNext<K(!new), V>(m: map<K, V>, keys: seq<K>, n: nat, value: V)
    requires Filled(m, keys, n) && n < |keys| && keys[n] !in m
    ensures Filled(m[keys[n] := value], keys, n + 1)
  {
    assert keys[..n + 1] == keys[..n] + [keys[n]];
  }

  // Nine different keys whose hashes start at slot 0 of 16.
  ghost predicate NineKeys<K(!new)>(hash: K -> Hash, eq: (K, K) -> bool, keys: seq<K>) {
    && |keys| == 9
    && (forall i :: 0 <= i < 9 ==> And(H1(hash(keys[i])), 15) == 0)
    && (forall i, j :: 0 <= i < j < 9 ==> !eq(keys[i], keys[j]))
  }

  // The map after n of them were set.
  ghost predicate Holding<K(0, !new), V(0)>(m: HashMap<K, V>, keys: seq<K>, n: nat)
    reads m, m.ctrl, m.slots
  {
    && m.Valid() && Filled(m.model, keys, n)
    && m.capacity == (if n == 0 then 0 else if n < 8 then 8 else 16)
    && m.growthLeft == (if n == 0 then 0 else if n < 8 then 7 - n else 6)
  }

  method SetNext<K(0, ==, !new), V(0)>(m: HashMap<K, V>, keys: seq<K>, n: nat, value: V) returns (ok: bool)
    requires Holding(m, keys, n) && n < 8 && NineKeys(m.hash, m.eq, keys)
    modifies m, m.ctrl, m.slots
    ensures ok && Holding(m, keys, n + 1)
    ensures (m.ctrl == old(m.ctrl) && m.slots == old(m.slots)) || (fresh(m.ctrl) && fresh(m.slots))
  {
    hide Inv, Lawful, Stored, H1, H2, Place, Filled, GrowWorks, HasPlaceAfterGrow, HasPlace, Holds, Window, CountFull,
         Distinct;
    m.SnapshotFacts();
    FilledAbsent(m.model, m.hash, m.eq, keys, n);
    m.LoadBound();
    if m.growthLeft == 0 {
      SmallGrowWorks(m.Snapshot(), m.hash, m.eq, m.model);
    } else {
      WindowHasGroups(m.hash(keys[n]), 8, 3);
      RoomInWindow(m.ctrl[..], 8, m.hash(keys[n]));
    }
    FilledNext(m.model, keys, n, value);
    ok := m.Set(keys[n], value, true);
    m.LoadBound();
    FilledSize(m.model, keys, n + 1);
  }

  lemma FilledSize<K(!new), V>(m: map<K, V>, keys: seq<K>, n: nat)
    requires Filled(m, keys, n)
    ensures |m| == n
  {
  }

  // They are set in an empty map, and memory is granted whenever it is asked for. The first eight are
  // stored, the ninth is refused with eight slots free.
  method NinthSetFails<K(0, ==, !new), V(0)>(hash: K -> Hash, eq: (K, K) -> bool, keys: seq<K>, value: V)
    returns (oks: seq<bool>)
    requires Lawful(hash, eq) && NineKeys(hash, eq, keys)
    ensures oks == [true, true, true, true, true, true, true, true, false]
  {
    hide Inv, Lawful, Stored, Place, Filled, HasPlace, Distinct, GrowWorks, HasPlaceAfterGrow, H1, H2;
    var m := new HashMap<K, V>(hash, eq);
    oks := [];
    EmptyFilled<K, V>(keys);
    for n := 0 to 8
      invariant m.hash == hash && m.eq == eq && Holding(m, keys, n) && fresh(m) && fresh(m.ctrl) && fresh(m.slots)
      invariant |oks| == n && forall i :: 0 <= i < n ==> oks[i]
    {
      var ok := SetNext(m, keys, n, value);
      oks := oks + [ok];
    }
    FilledAbsent(m.model, hash, eq, keys, 8);
    FilledSize(m.model, keys, 8);
    KeysStartAtZero(m.model, hash, keys, 8);
    FirstGroupCrowded(m.Snapshot(), hash, eq, m.model, hash(keys[8]));
    var ok := m.Set(keys[8], value, true);
    oks := oks + [ok];
  }

  lemma EmptyFilled<K(!new), V>(keys: seq<K>)
    ensures Filled<K, V>(map[], keys, 0)
  {
  }

  lemma KeysStartAtZero<K(!new), V>(m: map<K, V>, hash: K -> Hash, keys: seq<K>, n: nat)
    requires Filled(m, keys, n) && forall i :: 0 <= i < |keys| ==> And(H1(hash(keys[i])), 15) == 0
    ensures forall k :: k in m ==> And(H1(hash(k)), 15) == 0
  {
    hide H1;
    forall k | k in m
      ensures And(H1(hash(k)), 15) == 0
    {
      var i :| 0 <= i < n && keys[i] == k;
    }
  }
}
