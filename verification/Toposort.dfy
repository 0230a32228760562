/** The definition graph and its topological sort (Kahn's algorithm over in-degrees and a queue). */
module Toposort {
  import opened Bits
  import opened Graphs
  import opened Wrappers
  import CycleFinder

  datatype Kind = Enum | Struct | Message | Union | Service | Const | Decorator

  // A definition: the indices its dependency names resolve to (None for a name that is in no index), the
  // definition it is nested in, and the definitions its union branches refer to.
  datatype Def = Def(kind: Kind, deps: seq<Option<nat>>, parent: Option<nat>, branches: seq<Option<nat>>)

  type Defs = seq<Def>

  predicate WellFormed(defs: Defs) {
    forall i, j :: 0 <= i < |defs| && 0 <= j < |defs[i].deps| && defs[i].deps[j].Some? ==>
      defs[i].deps[j].value < |defs|
  }

  // ---------- which dependencies become edges ----------

  // Definition i is a message that union d uses as a branch.
  predicate MessageBranchOf(defs: Defs, i: nat, d: nat)
    requires i < |defs| && d < |defs|
  {
    && defs[d].kind == Union && defs[i].kind == Message
    && (defs[i].parent == Some(d) || Some(i) in defs[d].branches)
  }

  // A message or union may refer to itself, and a union and its message branches to each other.
  predicate Skipped(defs: Defs, i: nat, d: nat)
    requires i < |defs| && d < |defs|
  {
    || (d == i && (defs[i].kind == Message || defs[i].kind == Union))
    || MessageBranchOf(defs, i, d) || MessageBranchOf(defs, d, i)
  }

  predicate MakesEdge(defs: Defs, i: nat, j: nat)
    requires WellFormed(defs) && i < |defs| && j < |defs[i].deps|
  {
    defs[i].deps[j].Some? && !Skipped(defs, i, defs[i].deps[j].value)
  }

  // The lists after the first j dependencies of definition i were added to adj.
  ghost function AddDeps(defs: Defs, adj: Adjacency, i: nat, j: nat): (r: Adjacency)
    requires WellFormed(defs) && |adj| == |defs| && i < |defs| && j <= |defs[i].deps|
    ensures |r| == |defs|
  {
    if j == 0 then adj
    else
      var before := AddDeps(defs, adj, i, j - 1);
      if !MakesEdge(defs, i, j - 1) then before
      else var d := defs[i].deps[j - 1].value; before[d := before[d] + [i]]
  }

  // The lists after the dependencies of the first i definitions were added.
  ghost function GraphOf(defs: Defs, i: nat): (r: Adjacency)
    requires WellFormed(defs) && i <= |defs|
    ensures |r| == |defs|
  {
    if i == 0 then seq(|defs|, _ => []) else AddDeps(defs, GraphOf(defs, i - 1), i - 1, |defs[i - 1].deps|)
  }

  ghost predicate DependsOn(defs: Defs, i: nat, d: nat, n: nat)
    requires WellFormed(defs)
  {
    i < |defs| && n <= |defs[i].deps| && exists j :: 0 <= j < n && defs[i].deps[j] == Some(d) && MakesEdge(defs, i, j)
  }

  lemma {:induction false} AddDepsMeans(defs: Defs, adj: Adjacency, i: nat, j: nat)
    requires WellFormed(defs) && |adj| == |defs| && i < |defs| && j <= |defs[i].deps|
    ensures forall d: nat, k: nat :: Edge(AddDeps(defs, adj, i, j), d, k) <==>
              Edge(adj, d, k) || (k == i && d < |defs| && DependsOn(defs, i, d, j))
  {
    if j > 0 {
      AddDepsMeans(defs, adj, i, j - 1);
      var before := AddDeps(defs, adj, i, j - 1);
      forall d: nat | d < |defs|
        ensures DependsOn(defs, i, d, j) <==>
                  DependsOn(defs, i, d, j - 1) || (MakesEdge(defs, i, j - 1) && defs[i].deps[j - 1] == Some(d))
      {
      }
    }
  }

  // The graph has exactly the edges of the dependencies that are not skipped.
  lemma {:induction false} GraphMeans(defs: Defs, i: nat)
    requires WellFormed(defs) && i <= |defs|
    ensures forall d: nat, k: nat :: Edge(GraphOf(defs, i), d, k) <==>
              k < i && d < |defs| && DependsOn(defs, k, d, |defs[k].deps|)
    ensures Closed(GraphOf(defs, i))
  {
    if i > 0 {
      GraphMeans(defs, i - 1);
      AddDepsMeans(defs, GraphOf(defs, i - 1), i - 1, |defs[i - 1].deps|);
    }
    var adj := GraphOf(defs, i);
    forall d, j | 0 <= d < |adj| && 0 <= j < |adj[d]|
      ensures adj[d][j] < |adj|
    {
      assert Edge(adj, d, adj[d][j]);
    }
  }

  // ---------- the state of the sort ----------

  // left holds the edges that are not used up. The first head nodes of the queue were taken; of the
  // last of them, i edges are used.
  ghost predicate Sorting(adj: Adjacency, left: Adjacency, queue: seq<nat>, head: nat, i: nat) {
    && |left| == |adj| && head <= |queue|
    && Distinct(queue) && (forall q :: 0 <= q < |queue| ==> queue[q] < |adj|)
    && (forall d :: 0 <= d < |adj| && d !in queue[..head] ==> left[d] == adj[d])
    && (forall q :: 0 <= q < head - 1 ==> left[queue[q]] == [])
    && (head > 0 ==> i <= |adj[queue[head - 1]]| && left[queue[head - 1]] == adj[queue[head - 1]][i..])
    && QueuedExactly(left, queue)
    && SourcesFirst(adj, queue)
  }

  // The queue holds exactly the nodes with no edge left into them.
  ghost predicate QueuedExactly(left: Adjacency, queue: seq<nat>) {
    forall k: nat :: k < |left| ==> (k in queue <==> InDegree(left, k) == 0)
  }

  lemma SortStart(adj: Adjacency, queue: seq<nat>)
    requires Distinct(queue) && (forall q :: 0 <= q < |queue| ==> queue[q] < |adj|) && QueuedExactly(adj, queue)
    ensures Sorting(adj, adj, queue, 0, 0)
  {
    forall q, d: nat | 0 <= q < |queue|
      ensures !Edge(adj, d, queue[q])
    {
      assert queue[q] in queue;
      InDegreeZero(adj, queue[q]);
    }
  }

  lemma SortTake(adj: Adjacency, left: Adjacency, queue: seq<nat>, head: nat, i: nat)
    requires Sorting(adj, left, queue, head, i) && head < |queue|
    requires head > 0 ==> i == |adj[queue[head - 1]]|
    ensures Sorting(adj, left, queue, head + 1, 0) && queue[head] < |adj| && left[queue[head]] == adj[queue[head]]
  {
    hide SourcesFirst, QueuedExactly;
    assert queue[head] !in queue[..head];
    assert forall d :: d in queue[..head] ==> d in queue[..head + 1];
  }

  // One edge is used up. Its target is queued when it was the last edge into it; it was not queued before,
  // so there is room for it.
  lemma SortStep(adj: Adjacency, left: Adjacency, queue: seq<nat>, head: nat, i: nat, idx: nat, k: nat)
    requires Sorting(adj, left, queue, head, i) && head > 0 && idx == queue[head - 1] && i < |adj[idx]|
    requires Closed(adj) && k == adj[idx][i]
    ensures |left| == |adj| && idx < |adj| && left[idx] == adj[idx][i..] && left[idx] != []
    ensures InDegree(left, k) > 0 && |queue| < |adj|
    ensures var after := left[idx := left[idx][1..]];
            && (forall x :: InDegree(after, x) == InDegree(left, x) - if x == k then 1 else 0)
            && Sorting(adj, after, if InDegree(after, k) == 0 then queue + [k] else queue, head, i + 1)
  {
    hide SourcesFirst, Closed, InDegree;
    var after := left[idx := left[idx][1..]];
    assert left[idx] == adj[idx][i..] && left[idx][0] == k;
    DropFirst(left, idx);
    TargetInRange(adj, idx, i);
    StillThere(left, idx, k);
    RoomLeft(queue, |adj|, k);
    var later := if InDegree(after, k) == 0 then queue + [k] else queue;
    assert later[..head] == queue[..head] && later[head - 1] == idx;
    assert after[idx] == adj[idx][i + 1..];
    if InDegree(after, k) == 0 { AppendKeepsOrder(adj, left, after, queue, head, i, idx, k); }
  }

  lemma StillThere(left: Adjacency, d: nat, k: nat)
    requires d < |left| && left[d] != [] && left[d][0] == k
    ensures InDegree(left, k) > 0
  {
    InDegreeZero(left, k);
    assert Edge(left, d, k);
  }

  lemma DropFirst(left: Adjacency, idx: nat)
    requires idx < |left| && left[idx] != []
    ensures forall x ::
              InDegree(left[idx := left[idx][1..]], x) == InDegree(left, x) - if x == left[idx][0] then 1 else 0
  {
    forall x: nat
      ensures InDegree(left[idx := left[idx][1..]], x) == InDegree(left, x) - if x == left[idx][0] then 1 else 0
    {
      InDegreeUpdate(left, idx, left[idx][1..], x);
      CountFirst(left[idx], x);
    }
  }

  lemma AppendKeepsOrder(
      adj: Adjacency, left: Adjacency, after: Adjacency, queue: seq<nat>, head: nat, i: nat, idx: nat, k: nat)
    requires Sorting(adj, left, queue, head, i) && head > 0 && idx == queue[head - 1]
    requires left[idx] != [] && after == left[idx := left[idx][1..]] && InDegree(after, k) == 0
    ensures SourcesFirst(adj, queue + [k])
  {
    hide QueuedExactly;
    var later := queue + [k];
    InDegreeZero(after, k);
    forall q, d | 0 <= q < |later| && Edge(adj, d, later[q])
      ensures d in later[..q]
    {
      if q < |queue| {
        assert d in queue[..q] && later[..q] == queue[..q];
      } else {
        assert !Edge(after, d, k);
        assert d in queue[..head] && later[..q] == queue;
      }
    }
  }

  // What the queue holds when it runs empty: the definitions that no cycle reaches, each after all it
  // depends on.
  lemma SortEnd(adj: Adjacency, left: Adjacency, queue: seq<nat>, i: nat)
    requires Sorting(adj, left, queue, |queue|, i) && Closed(adj)
    requires queue != [] ==> i == |adj[queue[|queue| - 1]]|
    ensures forall k: nat :: k < |adj| ==> (k in queue <==> !CycleBefore(adj, k))
    ensures |queue| <= |adj| && (|queue| == |adj| <==> Acyclic(adj))
    ensures |queue| == |adj| ==> Permutation(queue, |adj|)
  {
    hide CycleBefore, Acyclic, Sorting, SourcesFirst, QueuedExactly;
    OthersHaveSource(adj, left, queue, i);
    var inside := Missing(queue, |adj|);
    forall k: nat | k < |adj|
      ensures k in queue <==> !CycleBefore(adj, k)
    {
      if k in queue {
        OrderedNotAfterCycle(adj, queue, k);
      } else {
        assert Trail(adj, inside, [k]);
        SourcesMakeCycle(adj, inside, [k]);
      }
    }
    FullIsPermutation(queue, |adj|);
    AcyclicMeans(adj);
  }

  ghost function Missing(queue: seq<nat>, n: nat): set<nat> { set k | k in Below(n) && k !in queue }

  lemma OthersHaveSource(adj: Adjacency, left: Adjacency, queue: seq<nat>, i: nat)
    requires Sorting(adj, left, queue, |queue|, i) && Closed(adj)
    requires queue != [] ==> i == |adj[queue[|queue| - 1]]|
    ensures forall k :: k in Missing(queue, |adj|) ==> HasSource(adj, Missing(queue, |adj|), k)
    ensures Distinct(queue) && SourcesFirst(adj, queue) && forall q :: 0 <= q < |queue| ==> queue[q] < |adj|
  {
    hide SourcesFirst;
    var inside := Missing(queue, |adj|);
    assert queue[..|queue|] == queue;
    assert forall q :: 0 <= q < |queue| ==> left[queue[q]] == [];
    forall k | k in inside
      ensures HasSource(adj, inside, k)
    {
      InDegreeZero(left, k);
      var d: nat :| Edge(left, d, k);
      assert d in inside && Edge(adj, d, k);
    }
  }

  lemma AcyclicMeans(adj: Adjacency)
    ensures Acyclic(adj) <==> forall k: nat :: k < |adj| ==> !CycleBefore(adj, k)
  {
    if !Acyclic(adj) {
      var c :| IsCycle(adj, c);
      CycleIsBeforeItself(adj, c);
    }
    if k: nat :| k < |adj| && CycleBefore(adj, k) {
      var c :| IsCycle(adj, c) && Reaches(adj, c[0], k);
      assert !Acyclic(adj);
    }
  }

  // ---------- the methods ----------

  datatype Outcome =
    | NoDefinitions
    | OutOfMemory
    | Sorted(order: seq<nat>)
    | Cyclic(blamed: nat, shown: Option<seq<nat>>)

  function TotalDeps(defs: Defs, i: nat): nat
    requires i <= |defs|
  {
    if i == 0 then 0 else TotalDeps(defs, i - 1) + |defs[i - 1].deps|
  }

  // BEBOP_DOUBLE_CAPACITY_U32 for a capacity that is not zero: 0 when it would overflow
  function Doubled(cap: nat): nat { if cap > U32_MAX / 2 then 0 else cap * 2 }

  class EdgeLists {
    const count: nat
    var adjacency: array<seq<nat>>
    var capacities: array<nat>
    var inDegree: array<nat>
    var allocFailed: bool
    // how many more requests the memory arena grants
    var grants: nat

    ghost predicate Valid()
      reads this, adjacency, capacities, inDegree
    {
      && adjacency.Length == capacities.Length == inDegree.Length == count && capacities != inDegree
      && (forall d :: 0 <= d < count ==> |adjacency[d]| <= capacities[d])
      && (forall k :: 0 <= k < count ==> inDegree[k] == InDegree(adjacency[..], k))
    }

    constructor (count: nat, grants: nat)
      ensures Valid() && this.count == count && this.grants == grants && !allocFailed
      ensures adjacency[..] == seq(count, _ => []) && fresh(adjacency) && fresh(capacities) && fresh(inDegree)
    {
      this.count := count;
      adjacency, capacities := new seq<nat>[count](_ => []), new nat[count](_ => 0);
      inDegree := new nat[count](_ => 0);
      allocFailed, this.grants := false, grants;
      new;
      NoEdges(adjacency[..]);
    }

    static lemma NoEdges(adj: Adjacency)
      requires forall d :: 0 <= d < |adj| ==> adj[d] == []
      ensures forall k: nat :: InDegree(adj, k) == 0
    {
      forall k: nat
        ensures InDegree(adj, k) == 0
      {
        InDegreeZero(adj, k);
      }
    }

    // Records that definition def depends on dep. It fails exactly when the list is full and cannot grow.
    method AddEdge(dep: nat, def: nat)
      requires Valid() && dep < count && def < count && !allocFailed
      modifies this`allocFailed, this`grants, adjacency, capacities, inDegree
      ensures Valid()
      ensures allocFailed <==>
        && |old(adjacency[dep])| >= old(capacities[dep])
        && (old(grants) == 0 || old(capacities[dep]) > U32_MAX / 2)
      ensures allocFailed ==>
        && adjacency[..] == old(adjacency[..]) && capacities[..] == old(capacities[..])
        && inDegree[..] == old(inDegree[..]) && grants == old(grants)
      ensures allocFailed ==> old(grants) == 0 || |adjacency[dep]| > U32_MAX / 2
      ensures !allocFailed ==> adjacency[..] == old(adjacency[..])[dep := old(adjacency[dep]) + [def]]
      ensures old(grants) <= grants + 1
    {
      ghost var before := adjacency[..];
      if |adjacency[dep]| >= capacities[dep] {
        var newCap := if capacities[dep] == 0 then 4 else Doubled(capacities[dep]);
        if newCap == 0 || grants == 0 {
          allocFailed := true;
          return;
        }
        grants := grants - 1;
        capacities[dep] := newCap;
      }
      ghost var after := before[dep := before[dep] + [def]];
      OneMore(before, dep, def);
      adjacency[dep] := adjacency[dep] + [def];
      inDegree[def] := inDegree[def] + 1;
      assert adjacency[..] == after;
    }

    static lemma OneMore(adj: Adjacency, d: nat, k: nat)
      requires d < |adj|
      ensures forall x :: InDegree(adj[d := adj[d] + [k]], x) == InDegree(adj, x) + if x == k then 1 else 0
    {
      forall x: nat
        ensures InDegree(adj[d := adj[d] + [k]], x) == InDegree(adj, x) + if x == k then 1 else 0
      {
        InDegreeUpdate(adj, d, adj[d] + [k], x);
        assert (adj[d] + [k])[..|adj[d]|] == adj[d];
      }
    }

    // The loop over the dependencies of definition i.
    method AddDefinition(defs: Defs, i: nat)
      requires Valid() && !allocFailed && WellFormed(defs) && i < |defs| == count
      requires forall d :: 0 <= d < count ==> |adjacency[d]| <= TotalDeps(defs, i)
      modifies this`allocFailed, this`grants, adjacency, capacities, inDegree
      ensures Valid()
      ensures !allocFailed ==> adjacency[..] == AddDeps(defs, old(adjacency[..]), i, |defs[i].deps|)
      ensures forall d :: 0 <= d < count ==> |adjacency[d]| <= TotalDeps(defs, i) + |defs[i].deps|
      ensures old(grants) <= grants + |defs[i].deps|
      ensures allocFailed ==> old(grants) < |defs[i].deps| || TotalDeps(defs, i) + |defs[i].deps| > U32_MAX / 2
    {
      hide Skipped;
      var j := 0;
      while j < |defs[i].deps| && !allocFailed
        invariant j <= |defs[i].deps| && Valid() && old(grants) <= grants + j
        invariant !allocFailed ==> adjacency[..] == AddDeps(defs, old(adjacency[..]), i, j)
        invariant forall d :: 0 <= d < count ==> |adjacency[d]| <= TotalDeps(defs, i) + j
        invariant allocFailed ==>
                    old(grants) < |defs[i].deps| || TotalDeps(defs, i) + |defs[i].deps| > U32_MAX / 2
        decreases |defs[i].deps| - j
      {
        var dep := defs[i].deps[j];
        if dep.Some? && !Skipped(defs, i, dep.value) {
          AddEdge(dep.value, i);
        }
        j := j + 1;
      }
    }

    // The first half of the sort: the edges of all definitions.
    method Build(defs: Defs)
      requires Valid() && !allocFailed && WellFormed(defs) && |defs| == count
      requires adjacency[..] == seq(count, _ => [])
      modifies this`allocFailed, this`grants, adjacency, capacities, inDegree
      ensures Valid() && (!allocFailed ==> adjacency[..] == GraphOf(defs, count))
      ensures old(grants) <= grants + TotalDeps(defs, count)
      ensures allocFailed ==> old(grants) < TotalDeps(defs, count) || TotalDeps(defs, count) > U32_MAX / 2
    {
      var i := 0;
      while i < count && !allocFailed
        invariant i <= count && Valid() && old(grants) <= grants + TotalDeps(defs, i)
        invariant !allocFailed ==> adjacency[..] == GraphOf(defs, i)
        invariant forall d :: 0 <= d < count ==> |adjacency[d]| <= TotalDeps(defs, i)
        invariant allocFailed ==> old(grants) < TotalDeps(defs, i) || TotalDeps(defs, i) > U32_MAX / 2
        decreases count - i
      {
        AddDefinition(defs, i);
        i := i + 1;
      }
      TotalGrows(defs, i, count);
    }

    static lemma {:induction false} TotalGrows(defs: Defs, i: nat, j: nat)
      requires i <= j <= |defs|
      ensures TotalDeps(defs, i) <= TotalDeps(defs, j)
    {
      if i < j { TotalGrows(defs, i, j - 1); }
    }
  }

  ghost predicate Degrees(inDegree: seq<nat>, left: Adjacency) {
    |inDegree| == |left| && forall k: nat :: k < |left| ==> inDegree[k] == InDegree(left, k)
  }

  // Queues the definitions without dependencies.
  method QueueRoots(adj: Adjacency, inDegree: array<nat>, queue: array<nat>) returns (tail: nat)
    requires inDegree != queue && queue.Length == |adj| && Degrees(inDegree[..], adj)
    modifies queue
    ensures tail <= queue.Length && Sorting(adj, adj, queue[..tail], 0, 0)
  {
    tail := 0;
    for i := 0 to |adj|
      invariant tail <= i && Degrees(inDegree[..], adj)
      invariant forall q :: 0 <= q < tail ==> queue[q] < i && inDegree[queue[q]] == 0
      invariant Distinct(queue[..tail])
      invariant forall k :: 0 <= k < i && inDegree[k] == 0 ==> k in queue[..tail]
    {
      if inDegree[i] == 0 {
        assert queue[..tail] == queue[..tail + 1][..tail];
        queue[tail] := i;
        tail := tail + 1;
        assert queue[..tail] == queue[..tail - 1] + [i];
      }
    }
    SortStart(adj, queue[..tail]);
  }

  // Uses up the edges of the definition just taken from the queue. The source checks for a full queue
  // before it appends; the check never fails.
  method UseEdges(adj: Adjacency, ghost left: Adjacency, inDegree: array<nat>, queue: array<nat>, head: nat, tail: nat)
    returns (newTail: nat, ghost after: Adjacency)
    requires inDegree != queue && queue.Length == |adj| && Closed(adj) && 0 < head <= tail <= queue.Length
    requires Degrees(inDegree[..], left) && Sorting(adj, left, queue[..tail], head, 0) && queue[head - 1] < |adj|
    modifies inDegree, queue
    ensures tail <= newTail <= queue.Length && queue[..tail] == old(queue[..tail]) && Degrees(inDegree[..], after)
    ensures Sorting(adj, after, queue[..newTail], head, |adj[queue[head - 1]]|)
  {
    hide Sorting, Closed, InDegree;
    newTail, after := tail, left;
    var idx := queue[head - 1];
    for i := 0 to |adj[idx]|
      invariant tail <= newTail <= queue.Length && queue[..tail] == old(queue[..tail]) && queue[head - 1] == idx
      invariant Degrees(inDegree[..], after) && Sorting(adj, after, queue[..newTail], head, i)
    {
      var k := adj[idx][i];
      SortStep(adj, after, queue[..newTail], head, i, idx, k);
      TargetInRange(adj, idx, i);
      assert inDegree[k] > 0;
      after := after[idx := after[idx][1..]];
      inDegree[k] := inDegree[k] - 1;
      if inDegree[k] == 0 {
        assert newTail < queue.Length;
        ghost var grown := queue[..newTail] + [k];
        queue[newTail] := k;
        newTail := newTail + 1;
        assert queue[..newTail] == grown;
      }
    }
  }

  lemma TargetInRange(adj: Adjacency, d: nat, i: nat)
    requires Closed(adj) && d < |adj| && i < |adj[d]|
    ensures adj[d][i] < |adj|
  {
  }

  // The main loop: the definitions no cycle reaches, each after everything it depends on.
  method Kahn(adj: Adjacency, inDegree: array<nat>) returns (sorted: seq<nat>)
    requires Closed(adj) && Degrees(inDegree[..], adj)
    modifies inDegree
    ensures forall k: nat :: k < |adj| ==> (k in sorted <==> !CycleBefore(adj, k))
    ensures |sorted| <= |adj| && (|sorted| == |adj| <==> Acyclic(adj))
    ensures SourcesFirst(adj, sorted) && (|sorted| == |adj| ==> Permutation(sorted, |adj|))
    ensures Distinct(sorted) && forall q :: 0 <= q < |sorted| ==> sorted[q] < |adj|
    ensures inDegree.Length == |adj| && forall k: nat :: k < |adj| ==> (inDegree[k] == 0 <==> k in sorted)
  {
    hide Sorting, Closed, CycleBefore, Acyclic, SourcesFirst, Permutation;
    var queue := new nat[|adj|];
    var tail := QueueRoots(adj, inDegree, queue);
    var head := 0;
    ghost var left: Adjacency, i: nat := adj, 0;
    sorted := [];
    while head < tail
      invariant head <= tail <= queue.Length && sorted == queue[..head]
      invariant Degrees(inDegree[..], left) && Sorting(adj, left, queue[..tail], head, i)
      invariant head > 0 ==> queue[head - 1] < |adj| && i == |adj[queue[head - 1]]|
      decreases queue.Length - head
    {
      SortTake(adj, left, queue[..tail], head, i);
      var idx := queue[head];
      head := head + 1;
      sorted := sorted + [idx];
      assert queue[..tail][..head] == queue[..head];
      ghost var front := queue[..tail];
      tail, left := UseEdges(adj, left, inDegree, queue, head, tail);
      assert queue[..head] == front[..head];
      i := |adj[idx]|;
    }
    SortEnd(adj, left, queue[..tail], i);
    SortFacts(adj, left, queue[..tail], head, i);
  }

  lemma SortFacts(adj: Adjacency, left: Adjacency, queue: seq<nat>, head: nat, i: nat)
    requires Sorting(adj, left, queue, head, i)
    ensures SourcesFirst(adj, queue) && QueuedExactly(left, queue) && |left| == |adj|
    ensures Distinct(queue) && forall q :: 0 <= q < |queue| ==> queue[q] < |adj|
  {
  }

  // An order is returned exactly when the graph is acyclic. Otherwise the first definition that lies on
  // or behind a cycle is blamed, and a cycle is shown exactly when that definition leads to one.
  method Sort(defs: Defs, grants: nat) returns (r: Outcome)
    requires WellFormed(defs)
    ensures r.NoDefinitions? <==> defs == []
    ensures r.OutOfMemory? ==>
              grants < TotalDeps(defs, |defs|) + 6 || TotalDeps(defs, |defs|) > U32_MAX / 2
    ensures r.Sorted? ==> Acyclic(GraphOf(defs, |defs|))
    ensures r.Sorted? ==> Permutation(r.order, |defs|) && SourcesFirst(GraphOf(defs, |defs|), r.order)
    ensures r.Cyclic? ==> !Acyclic(GraphOf(defs, |defs|)) && r.blamed < |defs|
    ensures r.Cyclic? ==> CycleBefore(GraphOf(defs, |defs|), r.blamed)
    ensures r.Cyclic? ==> forall k: nat :: k < r.blamed ==> !CycleBefore(GraphOf(defs, |defs|), k)
    ensures r.Cyclic? && r.shown.Some? ==> IsCycle(GraphOf(defs, |defs|), r.shown.value)
    ensures r.Cyclic? && grants >= TotalDeps(defs, |defs|) + 9 ==>
              (r.shown.Some? <==> CycleAfter(GraphOf(defs, |defs|), r.blamed))
  {
    hide GraphOf, CycleBefore, CycleAfter, Acyclic, SourcesFirst, Permutation, IsCycle;
    if |defs| == 0 {
      return NoDefinitions;
    }
    if grants < 5 {
      return OutOfMemory;
    }
    var lists := new EdgeLists(|defs|, grants - 5);
    lists.Build(defs);
    if lists.allocFailed || lists.grants == 0 {
      return OutOfMemory;
    }
    var adj := lists.adjacency[..];
    GraphMeans(defs, |defs|);
    var sorted := Kahn(adj, lists.inDegree);
    if |sorted| == |defs| {
      return Sorted(sorted);
    }
    var i := 0;
    FullIsPermutation(sorted, |defs|);
    while lists.inDegree[i] == 0
      invariant i < |defs| && forall k: nat :: k < i ==> !CycleBefore(adj, k)
      invariant exists k: nat :: i <= k < |defs| && k !in sorted
      decreases |defs| - i
    {
      i := i + 1;
    }
    var shown := None;
    if lists.grants - 1 >= 3 {
      shown := CycleFinder.FindCycle(adj, i);
    }
    return Cyclic(i, shown);
  }

  // A struct that depends on one definition.
  function StructWith(d: nat): Def { Def(Struct, [Some(d)], None, []) }

  // The blamed definition may lie behind every cycle and on none. Here the structs 1 and 2 depend on each
  // other and the struct 0 depends on 1: no search from 0 finds the cycle, so only the name of 0 is shown.
  lemma BlamedMayMissCycle(defs: Defs)
    requires defs == [StructWith(1), StructWith(2), StructWith(1)]
    ensures WellFormed(defs)
    ensures var adj := GraphOf(defs, 3); CycleBefore(adj, 0) && !CycleAfter(adj, 0) && !Acyclic(adj)
  {
    ExampleGraph(defs);
    var adj: Adjacency := [[], [0, 2], [1]];
    assert Edge(adj, 1, 2) && Edge(adj, 2, 1) && Edge(adj, 1, 0);
    assert IsCycle(adj, [1, 2]);
    assert IsPath(adj, [1, 0]) && Reaches(adj, 1, 0);
    OrderedNotBeforeCycle(adj, [0], 0);
  }

  lemma ExampleGraph(defs: Defs)
    requires defs == [StructWith(1), StructWith(2), StructWith(1)]
    ensures WellFormed(defs) && GraphOf(defs, 3) == [[], [0, 2], [1]]
  {
    assert MakesEdge(defs, 0, 0) && MakesEdge(defs, 1, 0) && MakesEdge(defs, 2, 0);
    var none, one, two: Adjacency := [[], [], []], [[], [0], []], [[], [0], [1]];
    assert GraphOf(defs, 0) == none;
    OneDependency(defs, 0, 1);
    assert none[1] + [0] == one[1] && none[1 := one[1]] == one;
    OneDependency(defs, 1, 2);
    assert one[2] + [1] == two[2] && one[2 := two[2]] == two;
    OneDependency(defs, 2, 1);
    assert two[1] + [2] == [0, 2] && two[1 := [0, 2]] == [[], [0, 2], [1]];
  }

  lemma OneDependency(defs: Defs, i: nat, d: nat)
    requires WellFormed(defs) && i < |defs| && defs[i].deps == [Some(d)] && MakesEdge(defs, i, 0)
    ensures GraphOf(defs, i + 1) == GraphOf(defs, i)[d := GraphOf(defs, i)[d] + [i]]
  {
    assert AddDeps(defs, GraphOf(defs, i), i, 0) == GraphOf(defs, i);
  }
}
