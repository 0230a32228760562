/** Directed multigraphs as adjacency lists: paths, cycles, orders, and the two facts the topological sort
    and the cycle finder rest on. */
module Graphs {

  // adj[d] lists the heads of the edges that leave d, repeated for repeated edges.
  type Adjacency = seq<seq<nat>>

  ghost predicate Closed(adj: Adjacency) {
    forall d, j :: 0 <= d < |adj| && 0 <= j < |adj[d]| ==> adj[d][j] < |adj|
  }

  ghost predicate Edge(adj: Adjacency, d: nat, k: nat) { d < |adj| && k in adj[d] }

  ghost predicate IsPath(adj: Adjacency, p: seq<nat>) {
    && |p| > 0 && (forall i :: 0 <= i < |p| ==> p[i] < |adj|)
    && forall i :: 0 <= i < |p| - 1 ==> Edge(adj, p[i], p[i + 1])
  }

  ghost predicate Reaches(adj: Adjacency, a: nat, b: nat) {
    exists p :: IsPath(adj, p) && p[0] == a && p[|p| - 1] == b
  }

  // A closed walk: the last node has an edge back to the first.
  ghost predicate IsCycle(adj: Adjacency, c: seq<nat>) {
    IsPath(adj, c) && Edge(adj, c[|c| - 1], c[0])
  }

  ghost predicate Acyclic(adj: Adjacency) { forall c :: !IsCycle(adj, c) }

  // Some cycle can be reached from a.
  ghost predicate CycleAfter(adj: Adjacency, a: nat) {
    exists c :: IsCycle(adj, c) && Reaches(adj, a, c[0])
  }

  // Some cycle reaches a.
  ghost predicate CycleBefore(adj: Adjacency, a: nat) {
    exists c :: IsCycle(adj, c) && Reaches(adj, c[0], a)
  }

  ghost predicate Distinct(s: seq<nat>) {
    forall i, j :: 0 <= i < j < |s| ==> s[i] != s[j]
  }

  // Every node that has an edge to s[q] stands before position q.
  ghost predicate SourcesFirst(adj: Adjacency, s: seq<nat>) {
    forall q, d :: 0 <= q < |s| && Edge(adj, d, s[q]) ==> d in s[..q]
  }

  // Every node that s[q] has an edge to stands before position q.
  ghost predicate TargetsFirst(adj: Adjacency, s: seq<nat>) {
    forall q, k :: 0 <= q < |s| && Edge(adj, s[q], k) ==> k in s[..q]
  }

  // Every node exactly once.
  ghost predicate Permutation(s: seq<nat>, n: nat) {
    |s| == n && Distinct(s) && (forall i :: 0 <= i < |s| ==> s[i] < n) && forall k: nat :: k < n ==> k in s
  }

  // ---------- paths ----------

  lemma Joined(adj: Adjacency, p: seq<nat>, q: seq<nat>)
    requires IsPath(adj, p) && IsPath(adj, q) && Edge(adj, p[|p| - 1], q[0])
    ensures IsPath(adj, p + q)
  {
    var r := p + q;
    forall i | 0 <= i < |r| - 1
      ensures Edge(adj, r[i], r[i + 1])
    {
      if i < |p| - 1 {
        assert Edge(adj, p[i], p[i + 1]);
      } else if i >= |p| {
        assert Edge(adj, q[i - |p|], q[i - |p| + 1]);
      }
    }
  }

  lemma Part(adj: Adjacency, p: seq<nat>, i: nat, j: nat)
    requires IsPath(adj, p) && i < j <= |p|
    ensures IsPath(adj, p[i..j])
  {
    var r := p[i..j];
    forall k | 0 <= k < |r| - 1
      ensures Edge(adj, r[k], r[k + 1])
    {
      assert Edge(adj, p[i + k], p[i + k + 1]);
    }
  }

  // ---------- orders exclude cycles ----------

  lemma {:induction false} SourcesFirstNoCycle(adj: Adjacency, s: seq<nat>, c: seq<nat>, i: nat, q: nat)
    requires SourcesFirst(adj, s) && IsCycle(adj, c) && i < |c| && q < |s| && s[q] == c[i]
    ensures false
    decreases q
  {
    var before := if i == 0 then |c| - 1 else i - 1;
    assert Edge(adj, c[before], c[i]);
    var r :| 0 <= r < q && s[..q][r] == c[before];
    SourcesFirstNoCycle(adj, s, c, before, r);
  }

  lemma {:induction false} TargetsFirstNoCycle(adj: Adjacency, s: seq<nat>, c: seq<nat>, i: nat, q: nat)
    requires TargetsFirst(adj, s) && IsCycle(adj, c) && i < |c| && q < |s| && s[q] == c[i]
    ensures false
    decreases q
  {
    var after := if i == |c| - 1 then 0 else i + 1;
    assert Edge(adj, c[i], c[after]);
    var r :| 0 <= r < q && s[..q][r] == c[after];
    TargetsFirstNoCycle(adj, s, c, after, r);
  }

  lemma {:induction false} SourcesStay(adj: Adjacency, s: seq<nat>, p: seq<nat>)
    requires SourcesFirst(adj, s) && IsPath(adj, p) && p[|p| - 1] in s
    ensures p[0] in s
    decreases |p|
  {
    if |p| > 1 {
      var q :| 0 <= q < |s| && s[q] == p[|p| - 1];
      assert Edge(adj, p[|p| - 2], s[q]);
      Part(adj, p, 0, |p| - 1);
      SourcesStay(adj, s, p[..|p| - 1]);
    }
  }

  lemma {:induction false} TargetsStay(adj: Adjacency, s: seq<nat>, p: seq<nat>)
    requires TargetsFirst(adj, s) && IsPath(adj, p) && p[0] in s
    ensures p[|p| - 1] in s
    decreases |p|
  {
    if |p| > 1 {
      var q :| 0 <= q < |s| && s[q] == p[0];
      assert Edge(adj, s[q], p[1]);
      Part(adj, p, 1, |p|);
      TargetsStay(adj, s, p[1..]);
    }
  }

  // A node that an order contains is on no cycle and behind no cycle.
  lemma OrderedNotAfterCycle(adj: Adjacency, s: seq<nat>, k: nat)
    requires SourcesFirst(adj, s) && k in s
    ensures !CycleBefore(adj, k)
  {
    if CycleBefore(adj, k) {
      var c :| IsCycle(adj, c) && Reaches(adj, c[0], k);
      var p :| IsPath(adj, p) && p[0] == c[0] && p[|p| - 1] == k;
      SourcesStay(adj, s, p);
      var q :| 0 <= q < |s| && s[q] == c[0];
      SourcesFirstNoCycle(adj, s, c, 0, q);
    }
  }

  lemma OrderedNotBeforeCycle(adj: Adjacency, s: seq<nat>, k: nat)
    requires TargetsFirst(adj, s) && k in s
    ensures !CycleAfter(adj, k)
  {
    if CycleAfter(adj, k) {
      var c :| IsCycle(adj, c) && Reaches(adj, k, c[0]);
      var p :| IsPath(adj, p) && p[0] == k && p[|p| - 1] == c[0];
      TargetsStay(adj, s, p);
      var q :| 0 <= q < |s| && s[q] == c[0];
      TargetsFirstNoCycle(adj, s, c, 0, q);
    }
  }

  lemma CycleIsBeforeItself(adj: Adjacency, c: seq<nat>)
    requires IsCycle(adj, c)
    ensures CycleBefore(adj, c[0]) && CycleAfter(adj, c[0])
  {
    Part(adj, c, 0, 1);
    assert IsPath(adj, c[0..1]) && c[0..1][0] == c[0];
    assert Reaches(adj, c[0], c[0]);
  }

  // ---------- counting ----------

  function Below(n: nat): (s: set<nat>)
    ensures |s| == n && forall k: nat :: k in s <==> k < n
  {
    if n == 0 then {} else Below(n - 1) + {n - 1}
  }

  function Elements(s: seq<nat>): set<nat> { set k | k in s }

  lemma {:induction false} DistinctCount(s: seq<nat>)
    requires Distinct(s)
    ensures |Elements(s)| == |s|
  {
    if s != [] {
      var front, last := s[..|s| - 1], s[|s| - 1];
      DistinctCount(front);
      assert Elements(s) == Elements(front) + {last};
      assert last !in front;
    }
  }

  lemma SubsetCount(a: set<nat>, b: set<nat>)
    requires a <= b
    ensures |a| <= |b|
  {
    assert b == a + (b - a);
  }

  // Distinct nodes below n that miss k are fewer than n.
  lemma RoomLeft(s: seq<nat>, n: nat, k: nat)
    requires Distinct(s) && (forall i :: 0 <= i < |s| ==> s[i] < n) && k < n && k !in s
    ensures |s| < n
  {
    DistinctCount(s);
    SubsetCount(Elements(s) + {k}, Below(n));
  }

  lemma FullIsPermutation(s: seq<nat>, n: nat)
    requires Distinct(s) && (forall i :: 0 <= i < |s| ==> s[i] < n)
    ensures |s| <= n && (|s| == n <==> forall k: nat :: k < n ==> k in s)
  {
    DistinctCount(s);
    SubsetCount(Elements(s), Below(n));
    if |s| == n {
      forall k: nat | k < n
        ensures k in s
      {
        if k !in s { RoomLeft(s, n, k); }
      }
    } else if forall k: nat :: k < n ==> k in s {
      assert Below(n) <= Elements(s);
      SubsetCount(Below(n), Elements(s));
    }
  }

  ghost predicate HasSource(adj: Adjacency, inside: set<nat>, k: nat) {
    k < |adj| && exists d :: d in inside && Edge(adj, d, k)
  }

  // A path that repeats no node and stays in a set.
  ghost predicate Trail(adj: Adjacency, inside: set<nat>, p: seq<nat>) {
    IsPath(adj, p) && Distinct(p) && forall i :: 0 <= i < |p| ==> p[i] in inside
  }

  lemma Prepend(adj: Adjacency, inside: set<nat>, d: nat, p: seq<nat>)
    requires Trail(adj, inside, p) && d in inside && d !in p && Edge(adj, d, p[0])
    ensures Trail(adj, inside, [d] + p) && |p| < |adj|
  {
    Joined(adj, [d], p);
    RoomLeft(p, |adj|, d);
  }

  // Where every node of a set has a source in the set, each of them has a cycle behind it. p leads
  // from the last source found to k.
  lemma {:induction false} SourcesMakeCycle(adj: Adjacency, inside: set<nat>, p: seq<nat>)
    requires forall k :: k in inside ==> HasSource(adj, inside, k)
    requires Trail(adj, inside, p)
    ensures |p| > 0 && CycleBefore(adj, p[|p| - 1])
    decreases |adj| - |p|
  {
    hide Edge, CycleBefore, Distinct;
    assert HasSource(adj, inside, p[0]);
    var d :| d in inside && Edge(adj, d, p[0]);
    if d in p {
      var i :| 0 <= i < |p| && p[i] == d;
      BackEdge(adj, p, i);
    } else {
      Prepend(adj, inside, d, p);
      SourcesMakeCycle(adj, inside, [d] + p);
    }
  }

  lemma BackEdge(adj: Adjacency, p: seq<nat>, i: nat)
    requires IsPath(adj, p) && i < |p| && Edge(adj, p[i], p[0])
    ensures CycleBefore(adj, p[|p| - 1])
  {
    hide Edge;
    Part(adj, p, 0, i + 1);
    var c := p[0..i + 1];
    assert IsCycle(adj, c) && c[0] == p[0];
    assert Reaches(adj, c[0], p[|p| - 1]);
  }

  // ---------- in-degrees ----------

  ghost function Count(s: seq<nat>, k: nat): (c: nat)
    ensures c > 0 <==> k in s
  {
    if s == [] then 0 else Count(s[..|s| - 1], k) + if s[|s| - 1] == k then 1 else 0
  }

  // The number of edges into k.
  ghost function InDegree(adj: Adjacency, k: nat): nat {
    if adj == [] then 0 else Count(adj[0], k) + InDegree(adj[1..], k)
  }

  lemma {:induction false} InDegreeUpdate(adj: Adjacency, d: nat, s: seq<nat>, k: nat)
    requires d < |adj|
    ensures InDegree(adj[d := s], k) == InDegree(adj, k) - Count(adj[d], k) + Count(s, k)
  {
    if d == 0 {
      assert adj[d := s][1..] == adj[1..];
    } else {
      assert adj[d := s][1..] == adj[1..][d - 1 := s];
      InDegreeUpdate(adj[1..], d - 1, s, k);
    }
  }

  lemma {:induction false} InDegreeZero(adj: Adjacency, k: nat)
    ensures InDegree(adj, k) == 0 <==> forall d: nat :: !Edge(adj, d, k)
  {
    if adj != [] {
      InDegreeZero(adj[1..], k);
      forall d: nat
        ensures Edge(adj, d, k) <==> (d == 0 && k in adj[0]) || (d > 0 && Edge(adj[1..], d - 1, k))
      {
      }
      if k !in adj[0] && exists d: nat :: Edge(adj[1..], d, k) {
        var d: nat :| Edge(adj[1..], d, k);
        assert Edge(adj, d + 1, k);
      }
      if k in adj[0] { assert Edge(adj, 0, k); }
    }
  }

  lemma {:induction false} CountFirst(s: seq<nat>, k: nat)
    requires s != []
    ensures Count(s, k) == Count(s[1..], k) + if s[0] == k then 1 else 0
  {
    if |s| > 1 {
      CountFirst(s[..|s| - 1], k);
      assert s[..|s| - 1][1..] == s[1..][..|s| - 2];
    }
  }
}
