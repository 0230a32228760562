/** The depth-first search that explains a cyclic dependency: three colours, an explicit stack, and the
    path of the nodes in progress. */
module CycleFinder {
  import opened Graphs
  import opened Wrappers

  const UNSEEN: nat := 0
  const OPEN: nat := 1
  const CLOSED: nat := 2

  // What the search knows between two rounds: path holds the open nodes, done the closed ones in the
  // order they were closed; the stack is the path, with at most one unseen node above it.
  ghost predicate Search(
      adj: Adjacency, start: nat, colour: seq<nat>, path: seq<nat>, stack: seq<nat>, done: seq<nat>) {
    && |colour| == |adj| && start < |adj|
    && (forall i :: 0 <= i < |path| ==> path[i] < |adj| && colour[path[i]] == OPEN) && Distinct(path)
    && (forall i :: 0 <= i < |done| ==> done[i] < |adj| && colour[done[i]] == CLOSED) && Distinct(done)
    && (forall k :: 0 <= k < |adj| ==>
          && (colour[k] == OPEN ==> k in path) && (colour[k] == CLOSED ==> k in done)
          && (colour[k] == UNSEEN || colour[k] == OPEN || colour[k] == CLOSED))
    && TargetsFirst(adj, done)
    && (path != [] ==> IsPath(adj, path) && path[0] == start)
    && OnStack(adj, start, colour, path, stack)
    && (stack == [] ==> start in done)
  }

  ghost predicate OnStack(adj: Adjacency, start: nat, colour: seq<nat>, path: seq<nat>, stack: seq<nat>)
    requires |colour| == |adj|
  {
    || stack == path
    || (|stack| == |path| + 1 && stack[..|path|] == path
        && var x := stack[|path|];
           && x < |adj| && colour[x] == UNSEEN
           && if path == [] then x == start else Edge(adj, path[|path| - 1], x))
  }

  // The node on top is opened.
  lemma Opened(adj: Adjacency, start: nat, colour: seq<nat>, path: seq<nat>, stack: seq<nat>, done: seq<nat>)
    requires Search(adj, start, colour, path, stack, done) && stack != [] && stack[|stack| - 1] < |adj|
    requires colour[stack[|stack| - 1]] == UNSEEN
    ensures stack == path + [stack[|stack| - 1]] && |path| < |adj|
    ensures Search(adj, start, colour[stack[|stack| - 1] := OPEN], stack, stack, done)
  {
    hide TargetsFirst, Edge;
    var x := stack[|stack| - 1];
    assert stack == path + [x];
    if path != [] { Joined(adj, path, [x]); }
    RoomLeft(path, |adj|, x);
  }

  // A target that is unseen is pushed. There is room: the path repeats no node and misses this one.
  lemma Pushed(
      adj: Adjacency, start: nat, colour: seq<nat>, path: seq<nat>, done: seq<nat>, x: nat)
    requires Search(adj, start, colour, path, path, done) && path != []
    requires Edge(adj, path[|path| - 1], x) && x < |adj| && colour[x] == UNSEEN
    ensures Search(adj, start, colour, path, path + [x], done) && |path| < |adj|
  {
    hide TargetsFirst, Edge, IsPath;
    assert (path + [x])[..|path|] == path;
    RoomLeft(path, |adj|, x);
  }

  ghost predicate AllClosed(targets: seq<nat>, colour: seq<nat>) {
    forall j :: 0 <= j < |targets| ==> targets[j] < |colour| && colour[targets[j]] == CLOSED
  }

  // A node all of whose targets are closed is closed.
  lemma Popped(adj: Adjacency, start: nat, colour: seq<nat>, path: seq<nat>, done: seq<nat>)
    requires Closed(adj) && Search(adj, start, colour, path, path, done) && path != []
    requires path[|path| - 1] < |adj| && AllClosed(adj[path[|path| - 1]], colour)
    ensures var x, front := path[|path| - 1], path[..|path| - 1];
            Search(adj, start, colour[x := CLOSED], front, front, done + [x]) && |done| < |adj|
  {
    var x, front := path[|path| - 1], path[..|path| - 1];
    var after := done + [x];
    if front != [] { Part(adj, path, 0, |path| - 1); }
    forall q, k | 0 <= q < |after| && Edge(adj, after[q], k)
      ensures k in after[..q]
    {
      if q < |done| {
        assert k in done[..q] && after[..q] == done[..q];
      } else {
        assert k in done && after[..q] == done;
      }
    }
    forall k | 0 <= k < |adj|
      ensures colour[x := CLOSED][k] == OPEN ==> k in front
      ensures colour[x := CLOSED][k] == CLOSED ==> k in after
    {
      if colour[x := CLOSED][k] == OPEN {
        var i :| 0 <= i < |path| && path[i] == k;
        assert front[i] == k;
      }
      if k == x { assert after[|done|] == k; }
    }
    RoomLeft(done, |adj|, x);
  }

  // An edge back into the path closes a cycle that the start reaches.
  lemma BackIntoPath(
      adj: Adjacency, start: nat, colour: seq<nat>, path: seq<nat>, stack: seq<nat>, done: seq<nat>, i: nat)
    requires Search(adj, start, colour, path, stack, done) && i < |path| && Edge(adj, path[|path| - 1], path[i])
    ensures IsCycle(adj, path[i..]) && CycleAfter(adj, start)
  {
    hide TargetsFirst, Edge;
    Part(adj, path, i, |path|);
    Part(adj, path, 0, i + 1);
    assert path[i..|path|] == path[i..];
    var lead := path[0..i + 1];
    assert IsPath(adj, lead) && lead[0] == start && lead[|lead| - 1] == path[i];
    assert Reaches(adj, start, path[i..][0]);
  }

  // The first target that is not closed.
  method FirstNotClosed(targets: seq<nat>, visited: array<nat>) returns (i: nat)
    requires forall j :: 0 <= j < |targets| ==> targets[j] < visited.Length
    ensures i <= |targets| && (i < |targets| ==> visited[targets[i]] != CLOSED)
    ensures i == |targets| ==> AllClosed(targets, visited[..])
  {
    i := 0;
    while i < |targets|
      invariant i <= |targets| && forall j :: 0 <= j < i ==> visited[targets[j]] == CLOSED
    {
      if visited[targets[i]] != CLOSED { return; }
      i := i + 1;
    }
  }

  method PositionOf(k: nat, path: array<nat>, pathLen: nat) returns (pos: nat)
    requires pathLen <= path.Length && k in path[..pathLen]
    ensures pos < pathLen && path[pos] == k
  {
    pos := 0;
    while path[pos] != k
      invariant pos < pathLen && k in path[pos..pathLen]
      decreases pathLen - pos
    {
      pos := pos + 1;
    }
  }

  lemma Begun(adj: Adjacency, start: nat, colour: seq<nat>, stack: seq<nat>)
    requires start < |adj| == |colour| && (forall k :: 0 <= k < |adj| ==> colour[k] == UNSEEN) && stack == [start]
    ensures Search(adj, start, colour, [], stack, [])
  {
  }

  lemma Bounds(adj: Adjacency, start: nat, colour: seq<nat>, path: seq<nat>, stack: seq<nat>, done: seq<nat>)
    requires Search(adj, start, colour, path, stack, done) && stack != []
    ensures var x := stack[|stack| - 1]; x < |adj| && (colour[x] != UNSEEN ==> stack == path)
    ensures |path| <= |stack| <= |path| + 1
    ensures forall k :: 0 <= k < |adj| ==> colour[k] == UNSEEN || colour[k] == OPEN || colour[k] == CLOSED
    ensures |done| <= |adj|
  {
    hide TargetsFirst, Edge, IsPath;
    FullIsPermutation(done, |adj|);
  }

  lemma OpenIsOnPath(
      adj: Adjacency, start: nat, colour: seq<nat>, path: seq<nat>, stack: seq<nat>, done: seq<nat>, k: nat)
    requires Search(adj, start, colour, path, stack, done) && k < |adj| && colour[k] == OPEN
    ensures k in path && Distinct(path)
  {
    hide TargetsFirst, Edge, IsPath;
  }

  // When the stack runs empty every node the start reaches is closed, and closed nodes are on no cycle.
  lemma Exhausted(adj: Adjacency, start: nat, colour: seq<nat>, path: seq<nat>, done: seq<nat>)
    requires Search(adj, start, colour, path, [], done)
    ensures !CycleAfter(adj, start)
  {
    hide TargetsFirst, Edge, IsPath;
    OrderedNotBeforeCycle(adj, done, start);
  }

  // Opens the node on top of the stack unless it is open already.
  method OpenTop(
      adj: Adjacency, start: nat, visited: array<nat>, path: array<nat>, pathLen: nat, stack: seq<nat>,
      ghost done: seq<nat>) returns (len: nat)
    requires visited != path && visited.Length == path.Length == |adj| && pathLen <= path.Length && stack != []
    requires Search(adj, start, visited[..], path[..pathLen], stack, done)
    modifies visited, path
    ensures pathLen <= len <= path.Length && path[..len] == stack
    ensures Search(adj, start, visited[..], stack, stack, done)
  {
    hide Search;
    Bounds(adj, start, visited[..], path[..pathLen], stack, done);
    var idx := stack[|stack| - 1];
    if visited[idx] != UNSEEN {
      return pathLen;
    }
    Opened(adj, start, visited[..], path[..pathLen], stack, done);
    visited[idx] := OPEN;
    assert pathLen < path.Length;
    path[pathLen] := idx;
    len := pathLen + 1;
    assert path[..len] == stack;
  }

  // Closes the last open node.
  method CloseTop(
      adj: Adjacency, start: nat, visited: array<nat>, ghost path: seq<nat>, idx: nat, ghost done: seq<nat>)
    requires Closed(adj) && visited.Length == |adj| && path != [] && idx == path[|path| - 1] < |adj|
    requires Search(adj, start, visited[..], path, path, done) && AllClosed(adj[idx], visited[..])
    modifies visited
    ensures Search(adj, start, visited[..], path[..|path| - 1], path[..|path| - 1], done + [idx]) && |done| < |adj|
  {
    hide Search, AllClosed;
    Popped(adj, start, visited[..], path, done);
    ghost var after := visited[..][idx := CLOSED];
    visited[idx] := CLOSED;
    assert visited[..] == after;
  }

  // The cycle shown to the user, or None when the search falls back to the name of the start. It finds
  // a cycle exactly when the start reaches one; the bounds checks of path and stack never fail.
  method FindCycle(adj: Adjacency, start: nat) returns (cycle: Option<seq<nat>>)
    requires Closed(adj) && start < |adj|
    ensures cycle.Some? ==> IsCycle(adj, cycle.value) && Distinct(cycle.value)
    ensures cycle.Some? <==> CycleAfter(adj, start)
  {
    hide Search, CycleAfter, IsCycle, AllClosed, Distinct, Edge;
    var visited, path, stack := new nat[|adj|](_ => UNSEEN), new nat[|adj|], new nat[|adj|];
    var pathLen, stackTop := 0, 1;
    stack[0] := start;
    ghost var done: seq<nat> := [];
    Begun(adj, start, visited[..], stack[..1]);
    while stackTop > 0
      invariant pathLen <= path.Length && stackTop <= stack.Length
      invariant Search(adj, start, visited[..], path[..pathLen], stack[..stackTop], done)
      decreases |adj| - |done|, |adj| - pathLen, |adj| - stackTop
    {
      Bounds(adj, start, visited[..], path[..pathLen], stack[..stackTop], done);
      var idx := stack[stackTop - 1];
      pathLen := OpenTop(adj, start, visited, path, pathLen, stack[..stackTop], done);
      ghost var open := stack[..stackTop];
      assert |open| == stackTop && open[stackTop - 1] == idx && pathLen == stackTop;
      var i := FirstNotClosed(adj[idx], visited);
      if i == |adj[idx]| {
        CloseTop(adj, start, visited, open, idx, done);
        pathLen, stackTop, done := pathLen - 1, stackTop - 1, done + [idx];
        assert path[..pathLen] == stack[..stackTop] == open[..|open| - 1];
      } else {
        var next := adj[idx][i];
        EdgeHere(adj, idx, i);
        if visited[next] == OPEN {
          OpenIsOnPath(adj, start, visited[..], open, open, done, next);
          var pos := PositionOf(next, path, pathLen);
          BackIntoPath(adj, start, visited[..], open, open, done, pos);
          assert open[pos..] == path[pos..pathLen];
          DistinctPart(open, pos);
          return Some(path[pos..pathLen]);
        }
        Bounds(adj, start, visited[..], open, open, done);
        Pushed(adj, start, visited[..], open, done, next);
        assert stackTop < stack.Length;
        stack[stackTop] := next;
        stackTop := stackTop + 1;
        assert stack[..stackTop] == open + [next] && path[..pathLen] == open;
      }
    }
    assert stack[..stackTop] == [];
    Exhausted(adj, start, visited[..], path[..pathLen], done);
    return None;
  }

  lemma EdgeHere(adj: Adjacency, d: nat, i: nat)
    requires d < |adj| && i < |adj[d]|
    ensures Edge(adj, d, adj[d][i])
  {
  }

  lemma DistinctPart(s: seq<nat>, i: nat)
    requires Distinct(s) && i <= |s|
    ensures Distinct(s[i..])
  {
  }
}
