/** The lock-free bump arena, as interleaved steps of many threads. One step is one atomic access, one call
    of the system allocator or one plain write; everything between two such accesses is local to a thread.
    Sizes are unbounded here: rounding up and used + size do not wrap. */
module Arena {
  import opened Arithmetic
  import opened Bits
  import opened Wrappers

  // sizeof of a block header, alignment of max_align_t, and the two options of the arena.
  datatype Config = Config(header: nat, align: nat, initialBlock: nat, maxBlock: nat) {
    ghost predicate Valid() { header > 0 && align > 0 }
  }

  // (size + alignment - 1) & ~(alignment - 1), for an alignment that is a power of two
  function Align(c: Config, size: nat): (r: nat)
    requires c.Valid()
  {
    (size + c.align - 1) / c.align * c.align
  }

  lemma AlignRoundsUp(c: Config, size: nat)
    requires c.Valid()
    ensures size <= Align(c, size) < size + c.align && Align(c, size) % c.align == 0
    ensures Align(c, Align(c, size)) == Align(c, size)
  {
    var q := (size + c.align - 1) / c.align;
    MultipleKept(q, c.align);
  }

  lemma MultipleKept(q: nat, a: nat)
    requires a > 0
    ensures (q * a + a - 1) / a * a == q * a && q * a % a == 0
  {
    DivMod(q * a + a - 1, a, q, a - 1);
    DivMod(q * a, a, q, 0);
  }

  lemma AlignMonotone(c: Config, m: nat, n: nat)
    requires c.Valid() && m <= n
    ensures Align(c, m) <= Align(c, n)
  {
    DivMonotone(m + c.align - 1, n + c.align - 1, c.align);
  }

  lemma DivMonotone(x: nat, y: nat, a: nat)
    requires a > 0 && x <= y
    ensures x / a * a <= y / a * a
  {
    var p, q := x / a, y / a;
    assert p * a <= x && y < q * a + a;
    assert q < p ==> q * a + a <= p * a by { if q < p { MulMonotone(q + 1, p, a); } }
    if p <= q { MulMonotone(p, q, a); }
  }

  // The capacity of a new block, or None when the request is over the limit.
  function BlockCapacity(c: Config, size: nat): (r: Option<nat>)
    requires c.Valid()
    ensures r.None? <==> Align(c, size) > c.maxBlock
    ensures r.Some? ==> Align(c, size) <= r.value <= c.maxBlock
    ensures r.Some? && c.initialBlock <= c.maxBlock ==> r.value >= c.initialBlock
  {
    var required := Align(c, size);
    if required > c.maxBlock then None
    else
      var capacity := if c.initialBlock < required then required else c.initialBlock;
      Some(if capacity > c.maxBlock then c.maxBlock else capacity)
  }

  // ---------- the shared state ----------

  // A block lies at its address: the header, then capacity bytes of data.
  datatype Block = Block(next: nat, used: nat, capacity: nat)

  // What alloc works for: a size, and the region to be moved when realloc called it.
  datatype Request = Request(size: nat, moving: Option<nat>)

  // Where a thread is: the atomic access it makes next, and its local variables.
  datatype Pc =
    | Idle(result: nat)
    | LoadCurrent(req: Request)
    | TestRoom(req: Request, block: nat)
    | NewBlock(req: Request, block: nat)
    | Publish(req: Request, block: nat, own: nat)
    | CountBlock(req: Request, block: nat, amount: nat)
    | DropBlock(req: Request, own: nat)
    | LoadUsed(req: Request, block: nat)
    | Reserve(req: Request, block: nat, used: nat)
    | CountUse(req: Request, ptr: nat)
    | Copy(req: Request, ptr: nat)
    | GrowLoad(ptr: nat, size: nat)
    | GrowUsed(ptr: nat, size: nat, block: nat)
    | GrowReserve(ptr: nat, size: nat, block: nat, used: nat)
    | GrowCount(ptr: nat, extra: nat)

  // Address 0 is NULL. published and live are history: the blocks that ever became current, newest
  // first, and the regions handed out with the bytes their owners last saw in them.
  datatype State = State(
    head: nat, blocks: map<nat, Block>, totalAllocated: nat, totalUsed: nat, memory: nat -> byte,
    threads: seq<Pc>, published: seq<nat>, live: map<nat, seq<byte>>)

  // A weak compare-and-swap may fail for no reason; the allocator picks an address or refuses with 0.
  datatype Choice = Choice(spurious: bool, address: nat)

  datatype Action =
    | Alloc(size: nat)
    | Realloc(ptr: nat, size: nat)
    | Step(choice: Choice)
    | Write(ptr: nat, index: nat, value: byte)

  // The regions a call in progress works on.
  function Busy(pc: Pc): set<nat> {
    match pc
    case Idle(_) => {}
    case CountUse(req, ptr) => Moving(req) + {ptr}
    case Copy(req, ptr) => Moving(req) + {ptr}
    case GrowLoad(ptr, _) => {ptr}
    case GrowUsed(ptr, _, _) => {ptr}
    case GrowReserve(ptr, _, _, _) => {ptr}
    case GrowCount(ptr, _) => {ptr}
    case _ => Moving(pc.req)
  }

  function Moving(req: Request): set<nat> {
    if req.moving.Some? then {req.moving.value} else {}
  }

  // The block a thread allocated and has neither published nor freed.
  function Private(pc: Pc): set<nat> {
    if pc.Publish? || pc.DropBlock? then {pc.own} else {}
  }

  // size bytes of memory from p
  function Bytes(memory: nat -> byte, p: nat, size: nat): seq<byte> {
    seq(size, i requires 0 <= i => memory(p + i))
  }

  function Stored(memory: nat -> byte, p: nat, bytes: seq<byte>): nat -> byte {
    (a: nat) => if p <= a < p + |bytes| then bytes[a - p] else memory(a)
  }

  // ---------- one step ----------

  ghost predicate Quiet(s: State, ptr: nat) {
    ptr in s.live && forall u :: 0 <= u < |s.threads| ==> ptr !in Busy(s.threads[u])
  }

  // The range of n bytes from a overlaps no allocated block.
  ghost predicate FreeRange(c: Config, s: State, a: nat, n: nat) {
    forall b :: b in s.blocks ==> a + n <= b || b + c.header + s.blocks[b].capacity <= a
  }

  // What callers and the allocator owe: a region passed in is live and in no other call, writes stay
  // inside a region, and new blocks do not overlap allocated ones.
  ghost predicate Enabled(c: Config, s: State, t: nat, a: Action) {
    && c.Valid() && t < |s.threads|
    && match a
       case Alloc(_) => s.threads[t].Idle?
       case Realloc(ptr, _) => s.threads[t].Idle? && (ptr == 0 || Quiet(s, ptr))
       case Write(ptr, i, _) => Quiet(s, ptr) && i < |s.live[ptr]|
       case Step(choice) =>
         && !s.threads[t].Idle?
         && (s.threads[t].NewBlock? && choice.address != 0 ==>
               var cap := BlockCapacity(c, Align(c, s.threads[t].req.size));
               cap.Some? ==> FreeRange(c, s, choice.address, c.header + cap.value))
  }

  function Goto(s: State, t: nat, pc: Pc): State
    requires t < |s.threads|
  {
    s.(threads := s.threads[t := pc])
  }

  // Locals of a thread that a step reads are the addresses of blocks and regions that exist.
  ghost predicate Known(c: Config, s: State, pc: Pc) {
    c.Valid() &&
    match pc
    case TestRoom(_, b) => b == 0 || b in s.blocks
    case LoadUsed(_, b) => b in s.blocks
    case Reserve(_, b, _) => b in s.blocks
    case Copy(req, ptr) => req.moving.Some? && req.moving.value in s.live && ptr in s.live
                           && |s.live[req.moving.value]| <= |s.live[ptr]|
    case GrowUsed(ptr, size, b) => b in s.blocks && ptr in s.live && |s.live[ptr]| < size
    case GrowReserve(ptr, size, b, _) => b in s.blocks && ptr in s.live && |s.live[ptr]| < size
    case _ => true
  }

  // aligned_new - aligned_old
  function Extra(c: Config, from: nat, size: nat): nat
    requires c.Valid() && from <= size
  {
    AlignMonotone(c, from, size);
    Align(c, size) - Align(c, from)
  }

  ghost function StepOf(c: Config, s: State, t: nat, choice: Choice): State
    requires t < |s.threads| && Known(c, s, s.threads[t])
  {
    match s.threads[t]
    case Idle(_) => s
    case LoadCurrent(req) => Goto(s, t, TestRoom(req, s.head))
    case TestRoom(req, b) =>
      if b == 0 || s.blocks[b].used + Align(c, req.size) > s.blocks[b].capacity then Goto(s, t, NewBlock(req, b))
      else Goto(s, t, LoadUsed(req, b))
    case NewBlock(req, b) =>
      var cap := BlockCapacity(c, Align(c, req.size));
      if cap.None? || choice.address == 0 then Goto(s, t, Idle(0))
      else Goto(s, t, Publish(req, b, choice.address)).(blocks := s.blocks[choice.address := Block(b, 0, cap.value)])
    case Publish(req, b, own) =>
      if s.head == b && !choice.spurious && own in s.blocks then
        Goto(s, t, CountBlock(req, own, c.header + s.blocks[own].capacity))
        .(head := own, published := [own] + s.published)
      else Goto(s, t, DropBlock(req, own))
    case CountBlock(req, b, amount) =>
      Goto(s, t, LoadUsed(req, b)).(totalAllocated := s.totalAllocated + amount)
    case DropBlock(req, own) => Goto(s, t, LoadCurrent(req)).(blocks := s.blocks - {own})
    case LoadUsed(req, b) =>
      if s.blocks[b].used + Align(c, req.size) <= s.blocks[b].capacity then
        Goto(s, t, Reserve(req, b, s.blocks[b].used))
      else Goto(s, t, LoadCurrent(req))
    case Reserve(req, b, used) =>
      if s.blocks[b].used == used && !choice.spurious then
        var ptr := b + c.header + used;
        Goto(s, t, CountUse(req, ptr))
        .(blocks := s.blocks[b := s.blocks[b].(used := used + Align(c, req.size))],
          live := s.live[ptr := Bytes(s.memory, ptr, req.size)])
      else Goto(s, t, LoadCurrent(req))
    case CountUse(req, ptr) =>
      Goto(s, t, if req.moving.Some? then Copy(req, ptr) else Idle(ptr))
      .(totalUsed := s.totalUsed + Align(c, req.size))
    case Copy(req, ptr) =>
      var source := s.live[req.moving.value];
      Goto(s, t, Idle(ptr))
      .(memory := Stored(s.memory, ptr, source),
        live := s.live[ptr := source + s.live[ptr][|source|..]] - {req.moving.value})
    case GrowLoad(ptr, size) =>
      if s.head == 0 then Goto(s, t, LoadCurrent(Request(size, Some(ptr))))
      else Goto(s, t, GrowUsed(ptr, size, s.head))
    case GrowUsed(ptr, size, b) =>
      var from, used := |s.live[ptr]|, s.blocks[b].used;
      if ptr + Align(c, from) == b + c.header + used && used + Extra(c, from, size) <= s.blocks[b].capacity then
        Goto(s, t, GrowReserve(ptr, size, b, used))
      else Goto(s, t, LoadCurrent(Request(size, Some(ptr))))
    case GrowReserve(ptr, size, b, used) =>
      var from := |s.live[ptr]|;
      if s.blocks[b].used == used && !choice.spurious then
        Goto(s, t, GrowCount(ptr, Extra(c, from, size)))
        .(blocks := s.blocks[b := s.blocks[b].(used := used + Extra(c, from, size))],
          live := s.live[ptr := Bytes(s.memory, ptr, size)])
      else Goto(s, t, LoadCurrent(Request(size, Some(ptr))))
    case GrowCount(ptr, extra) => Goto(s, t, Idle(ptr)).(totalUsed := s.totalUsed + extra)
  }

  ghost function Apply(c: Config, s: State, t: nat, a: Action): State
    requires Enabled(c, s, t, a) && Known(c, s, s.threads[t])
  {
    match a
    case Alloc(size) => Goto(s, t, if size == 0 then Idle(0) else LoadCurrent(Request(size, None)))
    case Realloc(ptr, size) =>
      if ptr == 0 then Goto(s, t, if size == 0 then Idle(0) else LoadCurrent(Request(size, None)))
      else if size == 0 then Goto(s, t, Idle(0))
      else if size <= |s.live[ptr]| then Goto(s, t, Idle(ptr)).(live := s.live[ptr := s.live[ptr][..size]])
      else Goto(s, t, GrowLoad(ptr, size))
    case Write(ptr, i, value) =>
      var bytes: seq<byte> := s.live[ptr][i := value];
      s.(memory := Stored(s.memory, ptr + i, [value]), live := s.live[ptr := bytes])
    case Step(choice) => StepOf(c, s, t, choice)
  }

  // ---------- the invariant ----------

  // Allocated blocks do not overlap.
  ghost predicate HeapOk(c: Config, blocks: map<nat, Block>) {
    && (forall b :: b in blocks ==> b > 0 && blocks[b].used <= blocks[b].capacity)
    && (forall a, b :: a in blocks && b in blocks && a < b ==> a + c.header + blocks[a].capacity <= b)
  }

  // Following next from a visits exactly path and ends at NULL.
  ghost predicate IsChain(blocks: map<nat, Block>, a: nat, path: seq<nat>)
    decreases |path|
  {
    if path == [] then a == 0
    else a == path[0] && a in blocks && IsChain(blocks, blocks[a].next, path[1..])
  }

  ghost predicate ChainOk(blocks: map<nat, Block>, head: nat, published: seq<nat>) {
    && IsChain(blocks, head, published)
    && (forall b :: b in published ==> b in blocks)
    && (forall i, j :: 0 <= i < j < |published| ==> published[i] != published[j])
  }

  // The n bytes from p lie in the used part of block b.
  ghost predicate Inside(c: Config, blocks: map<nat, Block>, p: nat, n: nat, b: nat) {
    && c.Valid() && b in blocks
    && b + c.header <= p && p + Align(c, n) <= b + c.header + blocks[b].used
  }

  ghost predicate InPublished(c: Config, blocks: map<nat, Block>, published: seq<nat>, p: nat, n: nat) {
    exists b :: b in published && Inside(c, blocks, p, n, b)
  }

  // Every region lies in one published block.
  ghost predicate RegionsPlaced(
      c: Config, blocks: map<nat, Block>, published: seq<nat>, live: map<nat, seq<byte>>) {
    forall p :: p in live ==> |live[p]| > 0 && InPublished(c, blocks, published, p, |live[p]|)
  }

  // The aligned ranges of two regions do not overlap.
  ghost predicate RegionsDisjoint(c: Config, live: map<nat, seq<byte>>) {
    c.Valid() && forall p, q :: p in live && q in live && p < q ==> p + Align(c, |live[p]|) <= q
  }

  // A region holds what its owner last saw in it.
  ghost predicate RegionsKept(memory: nat -> byte, live: map<nat, seq<byte>>) {
    forall p, i :: p in live && 0 <= i < |live[p]| ==> memory(p + i) == live[p][i]
  }

  ghost predicate PublishedBlock(s: State, b: nat) { b in s.published && b in s.blocks }

  ghost predicate RequestOk(s: State, req: Request) {
    req.size > 0 && (req.moving.Some? ==> req.moving.value in s.live && |s.live[req.moving.value]| < req.size)
  }

  ghost predicate OwnBlock(s: State, b: nat) {
    b in s.blocks && b !in s.published && s.blocks[b].used == 0
  }

  ghost predicate PcOk(c: Config, s: State, pc: Pc) {
    c.Valid() &&
    match pc
    case Idle(_) => true
    case LoadCurrent(req) => RequestOk(s, req)
    case TestRoom(req, b) => RequestOk(s, req) && (b == 0 || PublishedBlock(s, b))
    case NewBlock(req, b) => RequestOk(s, req) && (b == 0 || PublishedBlock(s, b))
    case Publish(req, b, own) =>
      RequestOk(s, req) && (b == 0 || PublishedBlock(s, b)) && OwnBlock(s, own) && s.blocks[own].next == b
    case CountBlock(req, b, _) => RequestOk(s, req) && PublishedBlock(s, b)
    case DropBlock(req, own) => RequestOk(s, req) && OwnBlock(s, own)
    case LoadUsed(req, b) => RequestOk(s, req) && PublishedBlock(s, b)
    case Reserve(req, b, used) =>
      RequestOk(s, req) && PublishedBlock(s, b) && used + Align(c, req.size) <= s.blocks[b].capacity
    case CountUse(req, ptr) =>
      RequestOk(s, req) && ptr in s.live && |s.live[ptr]| == req.size && req.moving != Some(ptr)
    case Copy(req, ptr) =>
      RequestOk(s, req) && ptr in s.live && |s.live[ptr]| == req.size && req.moving != Some(ptr) && req.moving.Some?
    case GrowLoad(ptr, size) => ptr in s.live && |s.live[ptr]| < size
    case GrowUsed(ptr, size, b) => ptr in s.live && |s.live[ptr]| < size && PublishedBlock(s, b)
    case GrowReserve(ptr, size, b, used) =>
      && ptr in s.live && |s.live[ptr]| < size && PublishedBlock(s, b)
      && ptr + Align(c, |s.live[ptr]|) == b + c.header + used
      && used + Extra(c, |s.live[ptr]|, size) <= s.blocks[b].capacity
    case GrowCount(ptr, _) => ptr in s.live
  }

  // Calls in progress work on different regions and hold different unpublished blocks.
  ghost predicate Apart(threads: seq<Pc>) {
    forall t, u :: 0 <= t < u < |threads| ==>
      Busy(threads[t]) !! Busy(threads[u]) && Private(threads[t]) !! Private(threads[u])
  }

  ghost predicate ThreadsOk(c: Config, s: State) {
    forall t :: 0 <= t < |s.threads| ==> PcOk(c, s, s.threads[t])
  }

  // No block is leaked: each one is published or some thread still holds it.
  ghost predicate NoLeak(blocks: map<nat, Block>, published: seq<nat>, threads: seq<Pc>) {
    forall b :: b in blocks && b !in published ==> exists t :: 0 <= t < |threads| && b in Private(threads[t])
  }

  function PendingUsed(c: Config, pc: Pc): nat
    requires c.Valid()
  {
    if pc.CountUse? then Align(c, pc.req.size) else if pc.GrowCount? then pc.extra else 0
  }

  function PendingAllocated(pc: Pc): nat { if pc.CountBlock? then pc.amount else 0 }

  ghost function AllPendingUsed(c: Config, threads: seq<Pc>): nat
    requires c.Valid()
  {
    if threads == [] then 0 else PendingUsed(c, threads[0]) + AllPendingUsed(c, threads[1..])
  }

  ghost function AllPendingAllocated(threads: seq<Pc>): nat {
    if threads == [] then 0 else PendingAllocated(threads[0]) + AllPendingAllocated(threads[1..])
  }

  ghost function SumUsed(blocks: map<nat, Block>, path: seq<nat>): nat
    requires forall b :: b in path ==> b in blocks
  {
    if path == [] then 0 else blocks[path[0]].used + SumUsed(blocks, path[1..])
  }

  ghost function SumAllocated(c: Config, blocks: map<nat, Block>, path: seq<nat>): nat
    requires forall b :: b in path ==> b in blocks
  {
    if path == [] then 0 else c.header + blocks[path[0]].capacity + SumAllocated(c, blocks, path[1..])
  }

  // The two totals, plus the additions still to be made, are the sums over the published blocks.
  ghost predicate CountersOk(c: Config, s: State) {
    && c.Valid() && (forall b :: b in s.published ==> b in s.blocks)
    && s.totalUsed + AllPendingUsed(c, s.threads) == SumUsed(s.blocks, s.published)
    && s.totalAllocated + AllPendingAllocated(s.threads) == SumAllocated(c, s.blocks, s.published)
  }

  ghost predicate Safe(c: Config, s: State) {
    && c.Valid() && HeapOk(c, s.blocks) && ChainOk(s.blocks, s.head, s.published)
    && RegionsPlaced(c, s.blocks, s.published, s.live)
    && RegionsDisjoint(c, s.live) && RegionsKept(s.memory, s.live)
    && ThreadsOk(c, s) && Apart(s.threads) && NoLeak(s.blocks, s.published, s.threads) && CountersOk(c, s)
  }
}
