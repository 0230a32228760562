/** Every interleaving of the arena's steps keeps its invariant, and a realloc keeps the bytes of its region. */
module ArenaSafety {
  import opened Arena
  import opened Arithmetic
  import opened Bits
  import opened Wrappers

  // ---------- sums and chains ----------

  lemma {:induction false} PendingUsedUpdate(c: Config, threads: seq<Pc>, t: nat, pc: Pc)
    requires c.Valid() && t < |threads|
    ensures AllPendingUsed(c, threads[t := pc]) + PendingUsed(c, threads[t])
         == AllPendingUsed(c, threads) + PendingUsed(c, pc)
  {
    hide PendingUsed;
    if t > 0 {
      assert threads[t := pc][1..] == threads[1..][t - 1 := pc];
      PendingUsedUpdate(c, threads[1..], t - 1, pc);
    } else {
      assert threads[0 := pc][1..] == threads[1..];
    }
  }

  lemma {:induction false} PendingAllocatedUpdate(threads: seq<Pc>, t: nat, pc: Pc)
    requires t < |threads|
    ensures AllPendingAllocated(threads[t := pc]) + PendingAllocated(threads[t])
         == AllPendingAllocated(threads) + PendingAllocated(pc)
  {
    hide PendingAllocated;
    if t > 0 {
      assert threads[t := pc][1..] == threads[1..][t - 1 := pc];
      PendingAllocatedUpdate(threads[1..], t - 1, pc);
    } else {
      assert threads[0 := pc][1..] == threads[1..];
    }
  }

  // The blocks of path exist in both heaps with the same fields, except that b may have used more.
  ghost predicate SameOn(m: map<nat, Block>, n: map<nat, Block>, path: seq<nat>, b: nat, more: nat) {
    forall a :: a in path ==> a in m && a in n && n[a] == if a == b then m[a].(used := m[a].used + more) else m[a]
  }

  lemma {:induction false} SumsStep(
      c: Config, m: map<nat, Block>, n: map<nat, Block>, path: seq<nat>, b: nat, more: nat)
    requires SameOn(m, n, path, b, more)
    requires forall i, j :: 0 <= i < j < |path| ==> path[i] != path[j]
    ensures SumUsed(n, path) == SumUsed(m, path) + if b in path then more else 0
    ensures SumAllocated(c, n, path) == SumAllocated(c, m, path)
  {
    if path != [] {
      SumsStep(c, m, n, path[1..], b, more);
      assert path == [path[0]] + path[1..];
    }
  }

  lemma {:induction false} ChainStep(
      m: map<nat, Block>, n: map<nat, Block>, a: nat, path: seq<nat>, b: nat, more: nat)
    requires SameOn(m, n, path, b, more) && IsChain(m, a, path)
    ensures IsChain(n, a, path)
    decreases |path|
  {
    if path != [] { ChainStep(m, n, m[a].next, path[1..], b, more); }
  }

  // There is only one way to follow the chain.
  lemma {:induction false} ChainUnique(blocks: map<nat, Block>, a: nat, path: seq<nat>, other: seq<nat>)
    requires IsChain(blocks, a, path) && IsChain(blocks, a, other) && 0 !in blocks
    ensures path == other
    decreases |path|
  {
    if path != [] && other != [] { ChainUnique(blocks, blocks[a].next, path[1..], other[1..]); }
  }

  // ---------- what one thread's step leaves to the others ----------

  // Published blocks stay, with their capacity.
  ghost predicate Grows(s: State, s': State) {
    forall b :: PublishedBlock(s, b) ==> PublishedBlock(s', b) && s'.blocks[b].capacity == s.blocks[b].capacity
  }

  // The regions and the private block of a thread at pc are as before.
  ghost predicate Untouched(s: State, s': State, pc: Pc) {
    && (forall p :: p in Busy(pc) && p in s.live ==> p in s'.live && s'.live[p] == s.live[p])
    && (forall b :: b in Private(pc) && OwnBlock(s, b) ==> OwnBlock(s', b) && s'.blocks[b] == s.blocks[b])
  }

  // Only these regions and these unpublished blocks may differ.
  ghost predicate Touches(s: State, s': State, regions: set<nat>, own: set<nat>) {
    && (forall p :: p in s.live && p !in regions ==> p in s'.live && s'.live[p] == s.live[p])
    && (forall b :: OwnBlock(s, b) && b !in own ==> OwnBlock(s', b) && s'.blocks[b] == s.blocks[b])
  }

  lemma OthersUntouched(s: State, s': State, t: nat, regions: set<nat>, own: set<nat>)
    requires Apart(s.threads) && t < |s.threads| && Touches(s, s', regions, own)
    requires forall u, p :: 0 <= u < |s.threads| && u != t && p in regions ==> p !in Busy(s.threads[u])
    requires forall u, b :: 0 <= u < |s.threads| && u != t && b in own ==> b !in Private(s.threads[u])
    ensures forall u :: 0 <= u < |s.threads| && u != t ==> Untouched(s, s', s.threads[u])
  {
    hide Busy, Private, OwnBlock;
  }

  lemma RequestKept(s: State, s': State, req: Request)
    requires RequestOk(s, req)
    requires forall p :: p in Moving(req) && p in s.live ==> p in s'.live && s'.live[p] == s.live[p]
    ensures RequestOk(s', req)
  {
    if req.moving.Some? { assert req.moving.value in Moving(req); }
  }

  lemma PcKept(c: Config, s: State, s': State, pc: Pc)
    requires PcOk(c, s, pc) && Grows(s, s') && Untouched(s, s', pc)
    ensures PcOk(c, s', pc)
  {
    hide RequestOk, OwnBlock, PublishedBlock, Align, Extra;
    if pc.LoadCurrent? || pc.TestRoom? || pc.NewBlock? || pc.Publish? || pc.CountBlock? || pc.DropBlock?
       || pc.LoadUsed? || pc.Reserve? || pc.CountUse? || pc.Copy? {
      RequestKept(s, s', pc.req);
    }
  }

  lemma ThreadsStep(c: Config, s: State, s': State, t: nat, pc: Pc)
    requires ThreadsOk(c, s) && Apart(s.threads) && t < |s.threads| && s'.threads == s.threads[t := pc]
    requires PcOk(c, s', pc) && Grows(s, s')
    requires forall u :: 0 <= u < |s.threads| && u != t ==> Untouched(s, s', s.threads[u])
    requires forall u :: 0 <= u < |s.threads| && u != t ==>
               Busy(pc) !! Busy(s.threads[u]) && Private(pc) !! Private(s.threads[u])
    ensures ThreadsOk(c, s') && Apart(s'.threads)
  {
    hide PcOk, Untouched, Busy, Private, Grows;
    forall u | 0 <= u < |s'.threads|
      ensures PcOk(c, s', s'.threads[u])
    {
      if u != t { PcKept(c, s, s', s.threads[u]); }
    }
  }

  // What thread t may hold after a step: what it held, or a region no call works on and no region at all.
  lemma StillApart(threads: seq<Pc>, t: nat, pc: Pc, added: set<nat>, own: set<nat>)
    requires Apart(threads) && t < |threads|
    requires Busy(pc) <= Busy(threads[t]) + added && Private(pc) <= Private(threads[t]) + own
    requires forall u, x :: 0 <= u < |threads| && x in added ==> x !in Busy(threads[u])
    requires forall u, x :: 0 <= u < |threads| && x in own ==> x !in Private(threads[u])
    ensures forall u :: 0 <= u < |threads| && u != t ==>
              Busy(pc) !! Busy(threads[u]) && Private(pc) !! Private(threads[u])
  {
    hide Busy, Private;
  }

  lemma NoLeakStep(
      m: map<nat, Block>, n: map<nat, Block>, path: seq<nat>, after: seq<nat>, threads: seq<Pc>, t: nat, pc: Pc)
    requires NoLeak(m, path, threads) && t < |threads|
    requires forall b :: b in n && b !in after ==>
               b in Private(pc) || (b in m && b !in path && b !in Private(threads[t]))
    ensures NoLeak(n, after, threads[t := pc])
  {
    hide Private;
    var later := threads[t := pc];
    forall b | b in n && b !in after
      ensures exists u :: 0 <= u < |later| && b in Private(later[u])
    {
      if b in Private(pc) {
        assert b in Private(later[t]);
      } else {
        var u :| 0 <= u < |threads| && b in Private(threads[u]);
        assert b in Private(later[u]);
      }
    }
  }

  // Both sums after a step that raises used of block b by more.
  lemma CountersStep(c: Config, s: State, s': State, t: nat, pc: Pc, b: nat, more: nat)
    requires CountersOk(c, s) && ChainOk(s.blocks, s.head, s.published) && t < |s.threads|
    requires s'.threads == s.threads[t := pc] && s'.published == s.published
    requires SameOn(s.blocks, s'.blocks, s.published, b, more)
    requires s'.totalUsed + PendingUsed(c, pc)
          == s.totalUsed + PendingUsed(c, s.threads[t]) + if b in s.published then more else 0
    requires s'.totalAllocated + PendingAllocated(pc) == s.totalAllocated + PendingAllocated(s.threads[t])
    ensures CountersOk(c, s')
  {
    hide PendingUsed, PendingAllocated;
    SumsStep(c, s.blocks, s'.blocks, s.published, b, more);
    PendingUsedUpdate(c, s.threads, t, pc);
    PendingAllocatedUpdate(s.threads, t, pc);
  }

  // ---------- the regions ----------

  lemma PlacedKept(
      c: Config, m: map<nat, Block>, n: map<nat, Block>, path: seq<nat>, after: seq<nat>, live: map<nat, seq<byte>>)
    requires RegionsPlaced(c, m, path, live)
    requires forall b :: b in path && b in m ==> b in after && b in n && m[b].used <= n[b].used
    ensures RegionsPlaced(c, n, after, live)
  {
    forall p | p in live
      ensures InPublished(c, n, after, p, |live[p]|)
    {
      var b :| b in path && Inside(c, m, p, |live[p]|, b);
      assert Inside(c, n, p, |live[p]|, b);
    }
  }

  // Regions may shrink or disappear.
  lemma RegionsShrink(
      c: Config, blocks: map<nat, Block>, path: seq<nat>, live: map<nat, seq<byte>>, after: map<nat, seq<byte>>)
    requires RegionsPlaced(c, blocks, path, live) && RegionsDisjoint(c, live)
    requires forall p :: p in after ==> p in live && 0 < |after[p]| <= |live[p]|
    ensures RegionsPlaced(c, blocks, path, after) && RegionsDisjoint(c, after)
  {
    hide Align;
    forall p | p in after
      ensures InPublished(c, blocks, path, p, |after[p]|) && Align(c, |after[p]|) <= Align(c, |live[p]|)
    {
      AlignMonotone(c, |after[p]|, |live[p]|);
      var b :| b in path && Inside(c, blocks, p, |live[p]|, b);
      assert Inside(c, blocks, p, |after[p]|, b);
    }
  }

  // A region lies below the top of a block or beyond the whole block.
  lemma ClearOfTop(c: Config, blocks: map<nat, Block>, path: seq<nat>, p: nat, n: nat, b: nat)
    requires HeapOk(c, blocks) && InPublished(c, blocks, path, p, n) && b in blocks
    ensures p + Align(c, n) <= b + c.header + blocks[b].used || b + c.header + blocks[b].capacity <= p
  {
    hide Align;
  }

  // The address test of realloc is exact: a region that ends where the used part of a block ends lies in
  // that block. A header between any two blocks is what rules out a neighbour.
  lemma TopmostIsInside(c: Config, blocks: map<nat, Block>, path: seq<nat>, p: nat, n: nat, b: nat)
    requires HeapOk(c, blocks) && InPublished(c, blocks, path, p, n) && b in blocks && c.Valid() && n > 0
    requires p + Align(c, n) == b + c.header + blocks[b].used
    ensures Inside(c, blocks, p, n, b)
  {
    hide Align;
    AlignRoundsUp(c, n);
  }

  // The range above the used part of a block becomes the region at ptr, which is new or ended there.
  lemma RegionsTop(
      c: Config, m: map<nat, Block>, n: map<nat, Block>, path: seq<nat>, live: map<nat, seq<byte>>,
      b: nat, more: nat, ptr: nat, bytes: seq<byte>)
    requires c.Valid() && HeapOk(c, m) && RegionsPlaced(c, m, path, live) && RegionsDisjoint(c, live)
    requires b in path && b in m && m[b].used + more <= m[b].capacity
    requires n == m[b := m[b].(used := m[b].used + more)]
    requires |bytes| > 0 && ptr + Align(c, |bytes|) == b + c.header + m[b].used + more
    requires if ptr in live then ptr + Align(c, |live[ptr]|) == b + c.header + m[b].used
             else ptr == b + c.header + m[b].used
    ensures RegionsPlaced(c, n, path, live[ptr := bytes]) && RegionsDisjoint(c, live[ptr := bytes])
  {
    hide Align;
    var after := live[ptr := bytes];
    PlacedKept(c, m, n, path, path, live);
    if ptr in live { TopmostIsInside(c, m, path, ptr, |live[ptr]|, b); }
    assert Inside(c, n, ptr, |bytes|, b);
    forall q | q in live && q != ptr
      ensures q < ptr ==> q + Align(c, |live[q]|) <= ptr
      ensures q > ptr ==> ptr + Align(c, |bytes|) <= q
    {
      AlignRoundsUp(c, |live[q]|);
      ClearOfTop(c, m, path, q, |live[q]|, b);
    }
  }

  // A write inside one region is seen in that region only.
  lemma StoreInside(
      c: Config, memory: nat -> byte, live: map<nat, seq<byte>>, p: nat, offset: nat, bytes: seq<byte>)
    requires RegionsKept(memory, live) && RegionsDisjoint(c, live)
    requires p in live && offset + |bytes| <= |live[p]|
    ensures RegionsKept(Stored(memory, p + offset, bytes),
                        live[p := live[p][..offset] + bytes + live[p][offset + |bytes|..]])
  {
    hide Align;
    var later := Stored(memory, p + offset, bytes);
    forall q, i | q in live && q != p && 0 <= i < |live[q]|
      ensures later(q + i) == live[q][i]
    {
      AlignRoundsUp(c, |live[q]|);
      AlignRoundsUp(c, |live[p]|);
      assert memory(q + i) == live[q][i];
    }
    var mine := live[p][..offset] + bytes + live[p][offset + |bytes|..];
    forall i | 0 <= i < |mine|
      ensures later(p + i) == mine[i]
    {
      assert memory(p + i) == live[p][i];
    }
  }

  // ---------- the steps ----------

  // A step that moves the thread on and makes the addition to the totals that it owed, if any.
  lemma JumpSafe(c: Config, s: State, s': State, t: nat, pc: Pc, added: set<nat>)
    requires Safe(c, s) && t < |s.threads| && PcOk(c, s, pc)
    requires s' == Goto(s, t, pc).(totalAllocated := s.totalAllocated + PendingAllocated(s.threads[t]),
                                   totalUsed := s.totalUsed + PendingUsed(c, s.threads[t]))
    requires Busy(pc) <= Busy(s.threads[t]) + added && Private(pc) == Private(s.threads[t])
    requires forall u, x :: 0 <= u < |s.threads| && x in added ==> x !in Busy(s.threads[u])
    requires PendingUsed(c, pc) == PendingAllocated(pc) == 0
    ensures Safe(c, s')
  {
    hide PcOk, Busy, Private, PendingUsed, PendingAllocated, HeapOk, RegionsPlaced, RegionsDisjoint, RegionsKept,
         Apart, ThreadsOk, NoLeak, IsChain;
    PcKept(c, s, s', pc);
    StillApart(s.threads, t, pc, added, {});
    ThreadsStep(c, s, s', t, pc);
    NoLeakStep(s.blocks, s.blocks, s.published, s.published, s.threads, t, pc);
    CountersStep(c, s, s', t, pc, 0, 0);
  }

  lemma ShrinkSafe(c: Config, s: State, t: nat, ptr: nat, size: nat)
    requires Safe(c, s) && t < |s.threads| && s.threads[t].Idle? && Quiet(s, ptr) && 0 < size <= |s.live[ptr]|
    ensures Safe(c, Goto(s, t, Idle(ptr)).(live := s.live[ptr := s.live[ptr][..size]]))
  {
    hide HeapOk, RegionsDisjoint, Apart, ThreadsOk, NoLeak, IsChain, InPublished;
    var pc := Idle(ptr);
    var s' := Goto(s, t, pc).(live := s.live[ptr := s.live[ptr][..size]]);
    RegionsShrink(c, s.blocks, s.published, s.live, s'.live);
    StillApart(s.threads, t, pc, {}, {});
    ThreadsStep(c, s, s', t, pc);
    NoLeakStep(s.blocks, s.blocks, s.published, s.published, s.threads, t, pc);
    CountersStep(c, s, s', t, pc, 0, 0);
  }

  lemma WriteSafe(c: Config, s: State, t: nat, ptr: nat, i: nat, value: byte, bytes: seq<byte>)
    requires Safe(c, s) && t < |s.threads| && Quiet(s, ptr) && i < |s.live[ptr]| && bytes == s.live[ptr][i := value]
    ensures Safe(c, s.(memory := Stored(s.memory, ptr + i, [value]), live := s.live[ptr := bytes]))
  {
    hide HeapOk, RegionsDisjoint, RegionsKept, Stored, Apart, ThreadsOk, NoLeak, IsChain, InPublished, PcOk, Private;
    var s' := s.(memory := Stored(s.memory, ptr + i, [value]), live := s.live[ptr := bytes]);
    var pc := s.threads[t];
    PcHere(c, s, t);
    assert s'.threads == s.threads[t := pc];
    RegionsShrink(c, s.blocks, s.published, s.live, s'.live);
    StoreInside(c, s.memory, s.live, ptr, i, [value]);
    assert bytes == s.live[ptr][..i] + [value] + s.live[ptr][i + 1..];
    PcKept(c, s, s', pc);
    StillApart(s.threads, t, pc, {}, {});
    ThreadsStep(c, s, s', t, pc);
    CountersStep(c, s, s', t, pc, 0, 0);
  }

  lemma PcHere(c: Config, s: State, t: nat)
    requires ThreadsOk(c, s) && t < |s.threads|
    ensures PcOk(c, s, s.threads[t])
  {
    hide PcOk;
  }

  // Threads only work on regions and blocks that exist.
  lemma HeldExists(c: Config, s: State)
    requires ThreadsOk(c, s)
    ensures forall u, p :: 0 <= u < |s.threads| && p in Busy(s.threads[u]) ==> p in s.live
    ensures forall u, b :: 0 <= u < |s.threads| && b in Private(s.threads[u]) ==> b in s.blocks
  {
    hide Align, Extra, PublishedBlock;
    forall u | 0 <= u < |s.threads|
      ensures forall p :: p in Busy(s.threads[u]) ==> p in s.live
      ensures forall b :: b in Private(s.threads[u]) ==> b in s.blocks
    {
      assert PcOk(c, s, s.threads[u]);
    }
  }

  lemma NewBlockHeap(c: Config, s: State, own: nat, block: Block)
    requires c.Valid() && HeapOk(c, s.blocks) && ChainOk(s.blocks, s.head, s.published)
    requires RegionsPlaced(c, s.blocks, s.published, s.live)
    requires own != 0 && FreeRange(c, s, own, c.header + block.capacity) && block.used == 0
    ensures own !in s.blocks && HeapOk(c, s.blocks[own := block])
    ensures ChainOk(s.blocks[own := block], s.head, s.published)
    ensures RegionsPlaced(c, s.blocks[own := block], s.published, s.live)
  {
    hide IsChain, RegionsPlaced;
    ChainStep(s.blocks, s.blocks[own := block], s.head, s.published, 0, 0);
    PlacedKept(c, s.blocks, s.blocks[own := block], s.published, s.published, s.live);
  }

  lemma NewBlockSafe(c: Config, s: State, t: nat, req: Request, b: nat, own: nat, capacity: nat)
    requires Safe(c, s) && t < |s.threads| && s.threads[t] == NewBlock(req, b)
    requires own != 0 && FreeRange(c, s, own, c.header + capacity)
    ensures Safe(c, Goto(s, t, Publish(req, b, own)).(blocks := s.blocks[own := Block(b, 0, capacity)]))
  {
    hide RegionsPlaced, RegionsDisjoint, RegionsKept, HeapOk, FreeRange, Untouched, Apart, NoLeak, IsChain, RequestOk,
         ThreadsOk;
    var pc := Publish(req, b, own);
    var s' := Goto(s, t, pc).(blocks := s.blocks[own := Block(b, 0, capacity)]);
    NewBlockHeap(c, s, own, Block(b, 0, capacity));
    PcHere(c, s, t);
    HeldExists(c, s);
    RequestKept(s, s', req);
    StillApart(s.threads, t, pc, {}, {own});
    OthersUntouched(s, s', t, {}, {});
    ThreadsStep(c, s, s', t, pc);
    NoLeakStep(s.blocks, s'.blocks, s.published, s.published, s.threads, t, pc);
    CountersStep(c, s, s', t, pc, 0, 0);
  }

  lemma DropSafe(c: Config, s: State, t: nat, req: Request, own: nat)
    requires Safe(c, s) && t < |s.threads| && s.threads[t] == DropBlock(req, own)
    ensures Safe(c, Goto(s, t, LoadCurrent(req)).(blocks := s.blocks - {own}))
  {
    hide Untouched, RegionsPlaced, RegionsDisjoint, RegionsKept, NoLeak, IsChain, RequestOk, ThreadsOk,
         AllPendingUsed, AllPendingAllocated, SumUsed, SumAllocated;
    var pc := LoadCurrent(req);
    var s' := Goto(s, t, pc).(blocks := s.blocks - {own});
    PcHere(c, s, t);
    PlacedKept(c, s.blocks, s'.blocks, s.published, s.published, s.live);
    RequestKept(s, s', req);
    ChainStep(s.blocks, s'.blocks, s.head, s.published, 0, 0);
    StillApart(s.threads, t, pc, {}, {});
    assert own in Private(s.threads[t]);
    OthersUntouched(s, s', t, {}, {own});
    ThreadsStep(c, s, s', t, pc);
    NoLeakStep(s.blocks, s'.blocks, s.published, s.published, s.threads, t, pc);
    CountersStep(c, s, s', t, pc, 0, 0);
  }

  lemma PublishSafe(c: Config, s: State, t: nat, req: Request, own: nat)
    requires Safe(c, s) && t < |s.threads| && s.threads[t] == Publish(req, s.head, own) && own in s.blocks
    ensures Safe(c, Goto(s, t, CountBlock(req, own, c.header + s.blocks[own].capacity))
                    .(head := own, published := [own] + s.published))
  {
    hide Untouched, HeapOk, RegionsPlaced, RegionsDisjoint, RegionsKept, NoLeak, RequestOk, ThreadsOk,
         AllPendingUsed, AllPendingAllocated;
    var pc := CountBlock(req, own, c.header + s.blocks[own].capacity);
    var s' := Goto(s, t, pc).(head := own, published := [own] + s.published);
    PcHere(c, s, t);
    PlacedKept(c, s.blocks, s.blocks, s.published, s'.published, s.live);
    RequestKept(s, s', req);
    assert s'.published[1..] == s.published;
    StillApart(s.threads, t, pc, {}, {});
    assert own in Private(s.threads[t]);
    OthersUntouched(s, s', t, {}, {own});
    ThreadsStep(c, s, s', t, pc);
    NoLeakStep(s.blocks, s.blocks, s.published, s'.published, s.threads, t, pc);
    PendingUsedUpdate(c, s.threads, t, pc);
    PendingAllocatedUpdate(s.threads, t, pc);
  }

  lemma ReserveSafe(c: Config, s: State, t: nat, req: Request, b: nat, used: nat, ptr: nat, blocks: map<nat, Block>)
    requires Safe(c, s) && t < |s.threads| && s.threads[t] == Reserve(req, b, used)
    requires b in s.blocks && s.blocks[b].used == used && ptr == b + c.header + used
    requires blocks == s.blocks[b := s.blocks[b].(used := used + Align(c, req.size))]
    ensures Safe(c, Goto(s, t, CountUse(req, ptr))
                    .(blocks := blocks, live := s.live[ptr := Bytes(s.memory, ptr, req.size)]))
  {
    hide Untouched, Apart, NoLeak, IsChain, ThreadsOk, Align, RegionsDisjoint, RegionsPlaced, HeapOk, RegionsKept,
         AllPendingUsed, AllPendingAllocated, SumUsed, SumAllocated;
    var more, pc := Align(c, req.size), CountUse(req, ptr);
    var s' := Goto(s, t, pc).(blocks := blocks, live := s.live[ptr := Bytes(s.memory, ptr, req.size)]);
    PcHere(c, s, t);
    HeldExists(c, s);
    AlignRoundsUp(c, req.size);
    TopIsNew(c, s.blocks, s.published, s.live, b, more);
    RegionsTop(c, s.blocks, blocks, s.published, s.live, b, more, ptr, s'.live[ptr]);
    KeptMore(s.memory, s.live, ptr, req.size);
    UseMore(c, s.blocks, b, more);
    ChainStep(s.blocks, blocks, s.head, s.published, b, more);
    StillApart(s.threads, t, pc, {ptr}, {});
    OthersUntouched(s, s', t, {}, {});
    ThreadsStep(c, s, s', t, pc);
    NoLeakStep(s.blocks, blocks, s.published, s.published, s.threads, t, pc);
    CountersStep(c, s, s', t, pc, b, more);
  }

  lemma UseMore(c: Config, blocks: map<nat, Block>, b: nat, more: nat)
    requires HeapOk(c, blocks) && b in blocks && blocks[b].used + more <= blocks[b].capacity
    ensures HeapOk(c, blocks[b := blocks[b].(used := blocks[b].used + more)])
  {
  }

  lemma KeptMore(memory: nat -> byte, live: map<nat, seq<byte>>, ptr: nat, size: nat)
    requires RegionsKept(memory, live)
    ensures RegionsKept(memory, live[ptr := Bytes(memory, ptr, size)])
    ensures ptr in live && |live[ptr]| <= size ==> live[ptr] <= Bytes(memory, ptr, size)
  {
  }

  lemma TopIsNew(
      c: Config, blocks: map<nat, Block>, path: seq<nat>, live: map<nat, seq<byte>>, b: nat, more: nat)
    requires c.Valid() && HeapOk(c, blocks) && RegionsPlaced(c, blocks, path, live) && b in blocks && more > 0
    requires blocks[b].used + more <= blocks[b].capacity
    ensures b + c.header + blocks[b].used !in live
  {
    hide Align;
    var p := b + c.header + blocks[b].used;
    if p in live {
      AlignRoundsUp(c, |live[p]|);
      ClearOfTop(c, blocks, path, p, |live[p]|, b);
    }
  }

  lemma GrowReserveSafe(
      c: Config, s: State, t: nat, ptr: nat, size: nat, b: nat, used: nat, more: nat, blocks: map<nat, Block>)
    requires Safe(c, s) && t < |s.threads| && s.threads[t] == GrowReserve(ptr, size, b, used)
    requires b in s.blocks && s.blocks[b].used == used && ptr in s.live && |s.live[ptr]| < size
    requires more == Extra(c, |s.live[ptr]|, size) && blocks == s.blocks[b := s.blocks[b].(used := used + more)]
    ensures Safe(c, Goto(s, t, GrowCount(ptr, more))
                    .(blocks := blocks, live := s.live[ptr := Bytes(s.memory, ptr, size)]))
  {
    hide Untouched, Apart, NoLeak, IsChain, ThreadsOk, Align, RegionsDisjoint, RegionsPlaced, HeapOk, RegionsKept,
         AllPendingUsed, AllPendingAllocated, SumUsed, SumAllocated;
    var pc := GrowCount(ptr, more);
    var s' := Goto(s, t, pc).(blocks := blocks, live := s.live[ptr := Bytes(s.memory, ptr, size)]);
    PcHere(c, s, t);
    assert ptr in Busy(s.threads[t]);
    RegionsTop(c, s.blocks, blocks, s.published, s.live, b, more, ptr, s'.live[ptr]);
    KeptMore(s.memory, s.live, ptr, size);
    UseMore(c, s.blocks, b, more);
    ChainStep(s.blocks, blocks, s.head, s.published, b, more);
    StillApart(s.threads, t, pc, {}, {});
    OthersBusy(s.threads, t, ptr);
    OthersUntouched(s, s', t, {ptr}, {});
    ThreadsStep(c, s, s', t, pc);
    NoLeakStep(s.blocks, blocks, s.published, s.published, s.threads, t, pc);
    CountersStep(c, s, s', t, pc, b, more);
  }

  lemma OthersBusy(threads: seq<Pc>, t: nat, ptr: nat)
    requires Apart(threads) && t < |threads| && ptr in Busy(threads[t])
    ensures forall u :: 0 <= u < |threads| && u != t ==> ptr !in Busy(threads[u])
  {
    hide Busy, Private;
  }

  lemma CopySafe(c: Config, s: State, t: nat, req: Request, ptr: nat, source: seq<byte>, from: nat)
    requires Safe(c, s) && t < |s.threads| && s.threads[t] == Copy(req, ptr) && req.moving == Some(from)
    requires from in s.live && source == s.live[from] && ptr in s.live && |source| <= |s.live[ptr]|
    ensures Safe(c, Goto(s, t, Idle(ptr)).(memory := Stored(s.memory, ptr, source),
                      live := s.live[ptr := source + s.live[ptr][|source|..]] - {from}))
  {
    hide Untouched, HeapOk, RegionsDisjoint, RegionsKept, Apart, NoLeak, IsChain, ThreadsOk, Stored, InPublished,
         AllPendingUsed, AllPendingAllocated, SumUsed, SumAllocated;
    var pc, both := Idle(ptr), s.live[ptr := source + s.live[ptr][|source|..]];
    var s' := Goto(s, t, pc).(memory := Stored(s.memory, ptr, source), live := both - {from});
    PcHere(c, s, t);
    StoreInside(c, s.memory, s.live, ptr, 0, source);
    assert both[ptr] == s.live[ptr][..0] + source + s.live[ptr][|source|..];
    KeptBelow(s'.memory, both, s'.live);
    RegionsShrink(c, s.blocks, s.published, s.live, s'.live);
    OthersBusy(s.threads, t, ptr);
    OthersBusy(s.threads, t, from);
    StillApart(s.threads, t, pc, {}, {});
    OthersUntouched(s, s', t, {ptr, from}, {});
    ThreadsStep(c, s, s', t, pc);
    NoLeakStep(s.blocks, s.blocks, s.published, s.published, s.threads, t, pc);
    CountersStep(c, s, s', t, pc, 0, 0);
  }

  lemma KeptBelow(memory: nat -> byte, live: map<nat, seq<byte>>, after: map<nat, seq<byte>>)
    requires RegionsKept(memory, live) && forall p :: p in after ==> p in live && after[p] == live[p]
    ensures RegionsKept(memory, after)
  {
  }

  lemma SafeKnown(c: Config, s: State, t: nat)
    requires Safe(c, s) && t < |s.threads|
    ensures Known(c, s, s.threads[t])
  {
    hide HeapOk, ChainOk, RegionsPlaced, RegionsDisjoint, RegionsKept, Apart, NoLeak, CountersOk, Align, Extra;
    assert PcOk(c, s, s.threads[t]);
  }

  // ---------- every step, every run ----------

  lemma StepSafe(c: Config, s: State, t: nat, choice: Choice)
    requires Safe(c, s) && Enabled(c, s, t, Step(choice)) && Known(c, s, s.threads[t])
    ensures Safe(c, StepOf(c, s, t, choice))
  {
    hide Safe, Align, Extra, BlockCapacity, FreeRange, Bytes, Stored, PcOk, Busy, Private;
    SafeKnown(c, s, t);
    SafeHere(c, s, t);
    var pc, s' := s.threads[t], StepOf(c, s, t, choice);
    match pc
    case NewBlock(req, b) =>
      var cap := BlockCapacity(c, Align(c, req.size));
      if cap.Some? && choice.address != 0 {
        NewBlockSafe(c, s, t, req, b, choice.address, cap.value);
      } else {
        LocalSafe(c, s, t, choice);
      }
    case Publish(req, b, own) =>
      if s.head == b && !choice.spurious && own in s.blocks {
        PublishSafe(c, s, t, req, own);
      } else {
        LocalSafe(c, s, t, choice);
      }
    case DropBlock(req, own) => DropSafe(c, s, t, req, own);
    case Reserve(req, b, used) =>
      if s.blocks[b].used == used && !choice.spurious {
        ReserveSafe(c, s, t, req, b, used, b + c.header + used, s'.blocks);
      } else {
        LocalSafe(c, s, t, choice);
      }
    case GrowReserve(ptr, size, b, used) =>
      if s.blocks[b].used == used && !choice.spurious {
        GrowReserveSafe(c, s, t, ptr, size, b, used, Extra(c, |s.live[ptr]|, size), s'.blocks);
      } else {
        LocalSafe(c, s, t, choice);
      }
    case Copy(req, ptr) => CopySafe(c, s, t, req, ptr, s.live[req.moving.value], req.moving.value);
    case _ => LocalSafe(c, s, t, choice);
  }

  // A step that writes no shared word except one of the totals.
  ghost predicate Local(c: Config, s: State, t: nat, choice: Choice)
    requires t < |s.threads| && Known(c, s, s.threads[t])
  {
    match s.threads[t]
    case Idle(_) => false
    case NewBlock(req, _) => choice.address == 0 || BlockCapacity(c, Align(c, req.size)).None?
    case Publish(_, b, own) => s.head != b || choice.spurious || own !in s.blocks
    case Reserve(_, b, used) => s.blocks[b].used != used || choice.spurious
    case GrowReserve(_, _, b, used) => s.blocks[b].used != used || choice.spurious
    case DropBlock(_, _) => false
    case Copy(_, _) => false
    case _ => true
  }

  predicate InRealloc(pc: Pc) { pc.GrowLoad? || pc.GrowUsed? || pc.GrowReserve? || pc.GrowCount? }

  lemma LocalPlaceRealloc(c: Config, s: State, t: nat, choice: Choice)
    requires t < |s.threads| && Known(c, s, s.threads[t]) && Local(c, s, t, choice) && PcOk(c, s, s.threads[t])
    requires s.head == 0 || PublishedBlock(s, s.head)
    requires forall p :: p in s.live ==> |s.live[p]| > 0
    requires InRealloc(s.threads[t])
    ensures PcOk(c, s, StepOf(c, s, t, choice).threads[t])
  {
    hide Align, Extra, BlockCapacity, OwnBlock, PublishedBlock;
  }

  lemma LocalPlaceAlloc(c: Config, s: State, t: nat, choice: Choice)
    requires t < |s.threads| && Known(c, s, s.threads[t]) && Local(c, s, t, choice) && PcOk(c, s, s.threads[t])
    requires s.head == 0 || PublishedBlock(s, s.head)
    requires forall p :: p in s.live ==> |s.live[p]| > 0
    requires !InRealloc(s.threads[t])
    ensures PcOk(c, s, StepOf(c, s, t, choice).threads[t])
  {
    hide Align, Extra, BlockCapacity, OwnBlock, PublishedBlock;
  }

  lemma LocalEffect(c: Config, s: State, t: nat, choice: Choice)
    requires t < |s.threads| && Known(c, s, s.threads[t]) && Local(c, s, t, choice)
    ensures var s' := StepOf(c, s, t, choice);
            && s' == Goto(s, t, s'.threads[t]).(totalAllocated := s.totalAllocated + PendingAllocated(s.threads[t]),
                                                totalUsed := s.totalUsed + PendingUsed(c, s.threads[t]))
  {
    hide StepOf, Known, Local, PendingUsed, PendingAllocated;
    if InRealloc(s.threads[t]) { ReallocEffect(c, s, t, choice); } else { AllocEffect(c, s, t, choice); }
  }

  lemma AllocEffect(c: Config, s: State, t: nat, choice: Choice)
    requires t < |s.threads| && Known(c, s, s.threads[t]) && Local(c, s, t, choice)
    requires !InRealloc(s.threads[t])
    ensures var s' := StepOf(c, s, t, choice);
            && s' == Goto(s, t, s'.threads[t]).(totalAllocated := s.totalAllocated + PendingAllocated(s.threads[t]),
                                                totalUsed := s.totalUsed + PendingUsed(c, s.threads[t]))
  {
    hide Align, Extra, BlockCapacity, Bytes, Stored, Busy, Private;
  }

  lemma ReallocEffect(c: Config, s: State, t: nat, choice: Choice)
    requires t < |s.threads| && Known(c, s, s.threads[t]) && Local(c, s, t, choice)
    requires InRealloc(s.threads[t])
    ensures var s' := StepOf(c, s, t, choice);
            && s' == Goto(s, t, s'.threads[t]).(totalAllocated := s.totalAllocated + PendingAllocated(s.threads[t]),
                                                totalUsed := s.totalUsed + PendingUsed(c, s.threads[t]))
  {
    hide Align, Extra, BlockCapacity, Bytes, Stored, Busy, Private;
  }

  lemma LocalBusy(c: Config, s: State, t: nat, choice: Choice)
    requires t < |s.threads| && Known(c, s, s.threads[t]) && Local(c, s, t, choice)
    ensures Busy(StepOf(c, s, t, choice).threads[t]) <= Busy(s.threads[t])
  {
    hide Align, Extra, BlockCapacity, Bytes, Stored, Private;
  }

  lemma LocalKeepsBlock(c: Config, s: State, t: nat, choice: Choice)
    requires t < |s.threads| && Known(c, s, s.threads[t]) && Local(c, s, t, choice)
    ensures Private(StepOf(c, s, t, choice).threads[t]) == Private(s.threads[t])
  {
    hide Align, Extra, BlockCapacity, Bytes, Stored, Busy;
  }

  lemma LocalOwesNothing(c: Config, s: State, t: nat, choice: Choice)
    requires t < |s.threads| && Known(c, s, s.threads[t]) && Local(c, s, t, choice)
    ensures var pc := StepOf(c, s, t, choice).threads[t];
            PendingUsed(c, pc) == PendingAllocated(pc) == 0
  {
    hide Align, Extra, BlockCapacity, Bytes, Stored;
  }

  lemma LocalSafe(c: Config, s: State, t: nat, choice: Choice)
    requires Safe(c, s) && t < |s.threads| && Known(c, s, s.threads[t]) && Local(c, s, t, choice)
    ensures Safe(c, StepOf(c, s, t, choice))
  {
    hide Safe, StepOf, PcOk, Busy, Private, PendingUsed, PendingAllocated, Local, Known, InRealloc;
    SafeHere(c, s, t);
    if InRealloc(s.threads[t]) { LocalPlaceRealloc(c, s, t, choice); } else { LocalPlaceAlloc(c, s, t, choice); }
    LocalEffect(c, s, t, choice);
    LocalBusy(c, s, t, choice);
    LocalKeepsBlock(c, s, t, choice);
    LocalOwesNothing(c, s, t, choice);
    JumpSafe(c, s, StepOf(c, s, t, choice), t, StepOf(c, s, t, choice).threads[t], {});
  }

  lemma SafeHere(c: Config, s: State, t: nat)
    requires Safe(c, s) && t < |s.threads|
    ensures PcOk(c, s, s.threads[t])
    ensures s.head == 0 || PublishedBlock(s, s.head)
    ensures forall p :: p in s.live ==> |s.live[p]| > 0
  {
    hide HeapOk, RegionsDisjoint, RegionsKept, Apart, NoLeak, CountersOk, PcOk, InPublished;
  }

  // Whatever a thread does next, the arena stays safe.
  lemma ActionSafe(c: Config, s: State, t: nat, a: Action)
    requires Safe(c, s) && Enabled(c, s, t, a)
    ensures Known(c, s, s.threads[t]) && Safe(c, Apply(c, s, t, a))
  {
    hide Safe, StepOf, Align, Bytes, Stored;
    SafeKnown(c, s, t);
    SafeHere(c, s, t);
    var s' := Apply(c, s, t, a);
    match a
    case Alloc(size) => JumpSafe(c, s, s', t, s'.threads[t], {});
    case Realloc(ptr, size) =>
      if ptr != 0 && 0 < size <= |s.live[ptr]| {
        ShrinkSafe(c, s, t, ptr, size);
      } else {
        JumpSafe(c, s, s', t, s'.threads[t], if ptr == 0 then {} else {ptr});
      }
    case Write(ptr, i, value) => WriteSafe(c, s, t, ptr, i, value, s'.live[ptr]);
    case Step(choice) => StepSafe(c, s, t, choice);
  }

  datatype Event = Event(thread: nat, action: Action)

  // s' is reached from s by these events, in any interleaving of the threads.
  ghost predicate Run(c: Config, s: State, events: seq<Event>, s': State)
    decreases |events|
  {
    if events == [] then s == s'
    else
      var e := events[0];
      && Enabled(c, s, e.thread, e.action) && Known(c, s, s.threads[e.thread])
      && Run(c, Apply(c, s, e.thread, e.action), events[1..], s')
  }

  function Start(threads: nat, memory: nat -> byte): State {
    State(0, map[], 0, 0, memory, seq(threads, _ => Idle(0)), [], map[])
  }

  // In every run: live regions are pairwise disjoint, each inside one published block, and hold what
  // was last written to them; the chain visits every block ever published; no block is leaked; and the
  // totals plus the pending additions equal the sums over the blocks.
  lemma {:induction false} RunSafe(c: Config, s: State, events: seq<Event>, s': State)
    requires Safe(c, s) && Run(c, s, events, s')
    ensures Safe(c, s')
    decreases |events|
  {
    hide Safe, Enabled, Known, Apply;
    if events != [] {
      ActionSafe(c, s, events[0].thread, events[0].action);
      RunSafe(c, Apply(c, s, events[0].thread, events[0].action), events[1..], s');
    }
  }

  lemma StartSafe(c: Config, threads: nat, memory: nat -> byte)
    requires c.Valid()
    ensures Safe(c, Start(threads, memory))
  {
    QuietTotals(c, Start(threads, memory).threads);
  }

  // ---------- what a call returns ----------

  // Thread t is in a call for n bytes that began with these bytes in region p, or with no region.
  ghost predicate InCall(s: State, t: nat, p: Option<nat>, bytes: seq<byte>, n: nat) {
    && t < |s.threads| && (p.None? ==> bytes == [])
    && match s.threads[t]
       case Idle(_) => false
       case GrowLoad(ptr, size) => p == Some(ptr) && size == n && ptr in s.live && s.live[ptr] == bytes
       case GrowUsed(ptr, size, _) => p == Some(ptr) && size == n && ptr in s.live && s.live[ptr] == bytes
       case GrowReserve(ptr, size, _, _) => p == Some(ptr) && size == n && ptr in s.live && s.live[ptr] == bytes
       case GrowCount(ptr, _) => p == Some(ptr) && ptr in s.live && |s.live[ptr]| == n && bytes <= s.live[ptr]
       case pc => pc.req == Request(n, p) && (p.Some? ==> p.value in s.live && s.live[p.value] == bytes)
  }

  // NULL leaves the old region as it was; otherwise the result is a live region of n bytes that begins
  // with the old ones.
  ghost predicate Outcome(s: State, t: nat, p: Option<nat>, bytes: seq<byte>, n: nat) {
    && t < |s.threads| && s.threads[t].Idle?
    && var r := s.threads[t].result;
       if r == 0 then p.Some? ==> p.value in s.live && s.live[p.value] == bytes
       else r in s.live && |s.live[r]| == n && bytes <= s.live[r]
  }

  // A step of another thread does not reach the regions this one works on.
  lemma OthersKeep(c: Config, s: State, t: nat, u: nat, a: Action, p: nat)
    requires Safe(c, s) && Enabled(c, s, u, a) && Known(c, s, s.threads[u])
    requires t < |s.threads| && (t != u || a.Write?) && p in Busy(s.threads[t]) && p in s.live
    ensures p in Apply(c, s, u, a).live && Apply(c, s, u, a).live[p] == s.live[p]
  {
    hide RegionsPlaced, RegionsDisjoint, RegionsKept, HeapOk, NoLeak, IsChain, Align, Extra, BlockCapacity, FreeRange,
         Stored, Bytes, RequestOk, CountersOk, ThreadsOk;
    PcHere(c, s, u);
    assert t != u ==> p !in Busy(s.threads[u]);
    if a.Step? && s.threads[u].Reserve? {
      AlignRoundsUp(c, s.threads[u].req.size);
      SizePositive(s, s.threads[u]);
      var b := s.threads[u].block;
      if s.blocks[b].used == s.threads[u].used {
        TopIsNew(c, s.blocks, s.published, s.live, b, Align(c, s.threads[u].req.size));
      }
    }
  }

  lemma SizePositive(s: State, pc: Pc)
    requires pc.Reserve? && RequestOk(s, pc.req)
    ensures pc.req.size > 0
  {
  }

  lemma OtherStep(c: Config, s: State, t: nat, u: nat, a: Action, p: Option<nat>, bytes: seq<byte>, n: nat)
    requires Safe(c, s) && Enabled(c, s, u, a) && Known(c, s, s.threads[u]) && (t != u || a.Write?)
    requires InCall(s, t, p, bytes, n)
    ensures InCall(Apply(c, s, u, a), t, p, bytes, n)
  {
    hide Safe, Known, Enabled, Align, Extra, BlockCapacity, Stored, Bytes, RequestOk;
    if p.Some? { OthersKeep(c, s, t, u, a, p.value); }
    ThreadStays(c, s, t, u, a);
  }

  lemma ThreadStays(c: Config, s: State, t: nat, u: nat, a: Action)
    requires Enabled(c, s, u, a) && Known(c, s, s.threads[u]) && t < |s.threads| && (t != u || a.Write?)
    ensures t < |Apply(c, s, u, a).threads| && Apply(c, s, u, a).threads[t] == s.threads[t]
  {
    hide Align, Extra, BlockCapacity, Stored, Bytes, FreeRange, StepOf;
    if a.Step? { StepStays(c, s, t, u, a.choice); }
  }

  lemma StepStays(c: Config, s: State, t: nat, u: nat, choice: Choice)
    requires u < |s.threads| && Known(c, s, s.threads[u]) && t < |s.threads| && t != u
    ensures t < |StepOf(c, s, u, choice).threads| && StepOf(c, s, u, choice).threads[t] == s.threads[t]
  {
    hide StepOf, Known;
    if InRealloc(s.threads[u]) { ReallocStays(c, s, t, u, choice); } else { AllocStays(c, s, t, u, choice); }
  }

  lemma AllocStays(c: Config, s: State, t: nat, u: nat, choice: Choice)
    requires u < |s.threads| && Known(c, s, s.threads[u]) && t < |s.threads| && t != u && !InRealloc(s.threads[u])
    ensures t < |StepOf(c, s, u, choice).threads| && StepOf(c, s, u, choice).threads[t] == s.threads[t]
  {
    hide Align, Extra, BlockCapacity, Stored, Bytes;
  }

  lemma ReallocStays(c: Config, s: State, t: nat, u: nat, choice: Choice)
    requires u < |s.threads| && Known(c, s, s.threads[u]) && t < |s.threads| && t != u && InRealloc(s.threads[u])
    ensures t < |StepOf(c, s, u, choice).threads| && StepOf(c, s, u, choice).threads[t] == s.threads[t]
  {
    hide Align, Extra, BlockCapacity, Stored, Bytes;
  }

  lemma LivePositive(c: Config, s: State, p: nat)
    requires Safe(c, s) && p in s.live
    ensures p > 0
  {
    hide Align, IsChain, ThreadsOk, Apart, NoLeak, CountersOk;
  }

  lemma OwnStep(c: Config, s: State, t: nat, choice: Choice, p: Option<nat>, bytes: seq<byte>, n: nat)
    requires Safe(c, s) && Enabled(c, s, t, Step(choice)) && Known(c, s, s.threads[t])
    requires InCall(s, t, p, bytes, n)
    ensures var s' := StepOf(c, s, t, choice); InCall(s', t, p, bytes, n) || Outcome(s', t, p, bytes, n)
  {
    hide RegionsPlaced, RegionsDisjoint, RegionsKept, HeapOk, NoLeak, IsChain, Align, Extra, BlockCapacity, FreeRange,
         Stored, CountersOk, ThreadsOk, Apart;
    PcHere(c, s, t);
    var pc := s.threads[t];
    if pc.CountUse? || pc.Copy? || pc.GrowCount? { LivePositive(c, s, pc.ptr); }
    if pc.GrowReserve? { KeptMore(s.memory, s.live, pc.ptr, pc.size); }
    if pc.Reserve? {
      AlignRoundsUp(c, pc.req.size);
      var b := pc.block;
      if s.blocks[b].used == pc.used {
        TopIsNew(c, s.blocks, s.published, s.live, b, Align(c, pc.req.size));
      }
    }
  }

  // Events of all threads during which thread t is in a call, up to the last state.
  ghost predicate CallRun(c: Config, s: State, t: nat, events: seq<Event>, s': State)
    requires t < |s.threads|
    decreases |events|
  {
    if events == [] then s == s'
    else
      var e := events[0];
      && !s.threads[t].Idle?
      && Enabled(c, s, e.thread, e.action) && Known(c, s, s.threads[e.thread])
      && t < |Apply(c, s, e.thread, e.action).threads|
      && CallRun(c, Apply(c, s, e.thread, e.action), t, events[1..], s')
  }

  lemma {:induction false} CallReturns(
      c: Config, s: State, t: nat, events: seq<Event>, s': State, p: Option<nat>, bytes: seq<byte>, n: nat)
    requires Safe(c, s) && t < |s.threads| && CallRun(c, s, t, events, s')
    requires InCall(s, t, p, bytes, n) || Outcome(s, t, p, bytes, n)
    ensures InCall(s', t, p, bytes, n) || Outcome(s', t, p, bytes, n)
    decreases |events|
  {
    hide Safe, StepOf, Known, FreeRange;
    if events != [] {
      var e := events[0];
      var next := Apply(c, s, e.thread, e.action);
      ActionSafe(c, s, e.thread, e.action);
      if e.thread == t && e.action.Step? {
        OwnStep(c, s, t, e.action.choice, p, bytes, n);
      } else {
        OtherStep(c, s, t, e.thread, e.action, p, bytes, n);
      }
      CallReturns(c, next, t, events[1..], s', p, bytes, n);
    }
  }

  // realloc keeps the bytes of its region, whatever the other threads do meanwhile.
  lemma ReallocKeepsBytes(c: Config, s: State, t: nat, ptr: nat, size: nat, events: seq<Event>, s': State)
    requires Safe(c, s) && Enabled(c, s, t, Realloc(ptr, size)) && ptr != 0 && size > 0
    requires CallRun(c, ReallocStarts(c, s, t, ptr, size), t, events, s')
    requires t < |s'.threads| && s'.threads[t].Idle?
    ensures var r, bytes := s'.threads[t].result, s.live[ptr];
            if r == 0 then ptr in s'.live && s'.live[ptr] == bytes
            else r in s'.live && |s'.live[r]| == size
                 && (var m := if size < |bytes| then size else |bytes|; s'.live[r][..m] == bytes[..m])
  {
    hide Safe, StepOf, Known;
    var next := ReallocStarts(c, s, t, ptr, size);
    ActionSafe(c, s, t, Realloc(ptr, size));
    if size > |s.live[ptr]| {
      CallReturns(c, next, t, events, s', Some(ptr), s.live[ptr], size);
    }
  }

  ghost function ReallocStarts(c: Config, s: State, t: nat, ptr: nat, size: nat): (r: State)
    requires Safe(c, s) && Enabled(c, s, t, Realloc(ptr, size))
    ensures t < |r.threads|
  {
    SafeKnown(c, s, t);
    Apply(c, s, t, Realloc(ptr, size))
  }

  // alloc returns NULL or a live region of the size asked for.
  lemma AllocReturns(c: Config, s: State, t: nat, size: nat, events: seq<Event>, s': State)
    requires Safe(c, s) && Enabled(c, s, t, Alloc(size)) && size > 0
    requires CallRun(c, Goto(s, t, LoadCurrent(Request(size, None))), t, events, s')
    requires t < |s'.threads| && s'.threads[t].Idle?
    ensures var r := s'.threads[t].result; r == 0 || (r in s'.live && |s'.live[r]| == size)
  {
    hide Safe, StepOf, Known;
    ActionSafe(c, s, t, Alloc(size));
    CallReturns(c, Goto(s, t, LoadCurrent(Request(size, None))), t, events, s', None, [], size);
  }

  // ---------- alignment ----------

  // Where an allocator hands out blocks at multiples of align, every pointer the arena hands out leaves
  // the remainder of the header size.
  ghost predicate Aligned(c: Config, s: State) {
    && c.Valid()
    && (forall b :: b in s.blocks ==> b % c.align == 0 && s.blocks[b].used % c.align == 0)
    && (forall p :: p in s.live ==> p % c.align == c.header % c.align)
  }

  lemma ModSum(x: nat, y: nat, a: nat)
    requires a > 0 && x % a == 0
    ensures (x + y) % a == y % a
  {
    DivMod(x + y, a, x / a + y / a, y % a);
  }

  lemma AlignedStep(c: Config, s: State, t: nat, a: Action)
    requires Aligned(c, s) && Enabled(c, s, t, a) && Known(c, s, s.threads[t])
    requires a.Step? ==> a.choice.address % c.align == 0
    ensures Aligned(c, Apply(c, s, t, a))
  {
    hide FreeRange, Bytes, Stored, StepOf;
    if a.Step? {
      var pc := s.threads[t];
      if pc.Reserve? { ReserveAligned(c, s, t, a.choice, pc.req, pc.block); }
      else if pc.GrowReserve? { GrowAligned(c, s, t, a.choice, pc.ptr, pc.size, pc.block); }
      else { OtherAligned(c, s, t, a.choice); }
    }
  }

  lemma ReserveAligned(c: Config, s: State, t: nat, choice: Choice, req: Request, b: nat)
    requires Aligned(c, s) && t < |s.threads| && Known(c, s, s.threads[t])
    requires s.threads[t].Reserve? && s.threads[t].req == req && s.threads[t].block == b
    ensures Aligned(c, StepOf(c, s, t, choice))
  {
    hide Align, BlockCapacity, FreeRange, Bytes, Stored, Extra;
    AlignRoundsUp(c, req.size);
    ModSum(s.blocks[b].used, Align(c, req.size), c.align);
    ModSum(b, c.header + s.blocks[b].used, c.align);
    ModSum(s.blocks[b].used, c.header, c.align);
  }

  lemma GrowAligned(c: Config, s: State, t: nat, choice: Choice, ptr: nat, size: nat, b: nat)
    requires Aligned(c, s) && t < |s.threads| && Known(c, s, s.threads[t])
    requires var pc := s.threads[t]; pc.GrowReserve? && pc.ptr == ptr && pc.size == size && pc.block == b
    ensures Aligned(c, StepOf(c, s, t, choice))
  {
    hide Align, BlockCapacity, FreeRange, Bytes, Stored, Extra;
    ExtraAligned(c, |s.live[ptr]|, size);
    ModSum(s.blocks[b].used, Extra(c, |s.live[ptr]|, size), c.align);
  }

  lemma OtherAligned(c: Config, s: State, t: nat, choice: Choice)
    requires Aligned(c, s) && t < |s.threads| && Known(c, s, s.threads[t])
    requires !s.threads[t].Reserve? && !s.threads[t].GrowReserve? && choice.address % c.align == 0
    ensures Aligned(c, StepOf(c, s, t, choice))
  {
    hide Align, BlockCapacity, FreeRange, Bytes, Stored, Extra;
    if s.threads[t].NewBlock? { ZeroMod(c.align); }
  }

  lemma ZeroMod(a: nat)
    requires a > 0
    ensures 0 % a == 0
  {
  }

  lemma ExtraAligned(c: Config, from: nat, size: nat)
    requires c.Valid() && from <= size
    ensures Extra(c, from, size) % c.align == 0
  {
    AlignRoundsUp(c, from);
    AlignRoundsUp(c, size);
    ModSum(Align(c, from), Extra(c, from, size), c.align);
  }

  // In every run over such an allocator a returned pointer is aligned for every type if and only if the
  // header size is a multiple of the alignment.
  lemma {:induction false} RunAligned(c: Config, s: State, events: seq<Event>, s': State)
    requires Aligned(c, s) && Run(c, s, events, s')
    requires forall i :: 0 <= i < |events| && events[i].action.Step? ==> events[i].action.choice.address % c.align == 0
    ensures Aligned(c, s')
    ensures forall p :: p in s'.live ==> (p % c.align == 0 <==> c.header % c.align == 0)
    decreases |events|
  {
    hide Enabled, Known, Apply;
    if events != [] {
      var e := events[0];
      AlignedStep(c, s, e.thread, e.action);
      RunAligned(c, Apply(c, s, e.thread, e.action), events[1..], s');
    }
  }

  // With a header of 24 bytes and an alignment of 16, no pointer that is handed out is aligned.
  lemma HeaderOf24(c: Config, s: State, events: seq<Event>, s': State, p: nat)
    requires c.header == 24 && c.align == 16 && Aligned(c, s) && Run(c, s, events, s') && p in s'.live
    requires forall i :: 0 <= i < |events| && events[i].action.Step? ==> events[i].action.choice.address % 16 == 0
    ensures p % 16 == 8
  {
    hide Run;
    RunAligned(c, s, events, s');
  }

  // ---------- the end ----------

  // The walk that frees the arena: when no call is in progress, it frees every block the arena ever
  // took and still has, and the sizes it gives back add up to the total.
  method Destroy(c: Config, s: State) returns (left: map<nat, Block>, freed: nat)
    requires Safe(c, s) && forall t :: 0 <= t < |s.threads| ==> s.threads[t].Idle?
    ensures left == map[] && freed == s.totalAllocated
  {
    hide RegionsPlaced, RegionsDisjoint, RegionsKept, ThreadsOk, Apart;
    QuietTotals(c, s.threads);
    left, freed := s.blocks, 0;
    var block := s.head;
    ghost var rest := s.published;
    while block != 0
      invariant IsChain(left, block, rest) && (forall b :: b in left <==> b in rest) && 0 !in rest
      invariant forall i, j :: 0 <= i < j < |rest| ==> rest[i] != rest[j]
      invariant freed + SumAllocated(c, left, rest) == s.totalAllocated
      decreases |rest|
    {
      var next, size := left[block].next, c.header + left[block].capacity;
      SumsStep(c, left, left - {block}, rest[1..], 0, 0);
      ChainStep(left, left - {block}, next, rest[1..], 0, 0);
      assert rest == [block] + rest[1..];
      left, freed, rest := left - {block}, freed + size, rest[1..];
      block := next;
    }
  }

  lemma {:induction false} QuietTotals(c: Config, threads: seq<Pc>)
    requires c.Valid() && forall t :: 0 <= t < |threads| ==> threads[t].Idle?
    ensures AllPendingUsed(c, threads) == 0 && AllPendingAllocated(threads) == 0
    ensures forall t :: 0 <= t < |threads| ==> Private(threads[t]) == {}
  {
    if threads != [] { QuietTotals(c, threads[1..]); }
  }
}
