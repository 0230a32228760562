/** The wire size of fixed-size structs: one pass in dependency order, with 32-bit overflow checks, against
    the exact recursive size. */
module FixedSizes {
  import opened Arithmetic
  import opened Bits
  import opened Graphs
  import opened Wrappers
  import Toposort

  datatype Scalar =
    | Bool | Byte | Int8 | Int16 | UInt16 | Int32 | UInt32 | Int64 | UInt64 | Int128 | UInt128
    | Float16 | Float32 | Float64 | BFloat16 | Uuid | Timestamp | Duration

  function ScalarSize(k: Scalar): (r: u32)
    ensures 1 <= r <= 16
  {
    match k
    case Bool => 1
    case Byte => 1
    case Int8 => 1
    case Int16 => 2
    case UInt16 => 2
    case Int32 => 4
    case UInt32 => 4
    case Int64 => 8
    case UInt64 => 8
    case Int128 => 16
    case UInt128 => 16
    case Float16 => 2
    case Float32 => 4
    case Float64 => 8
    case BFloat16 => 2
    case Uuid => 16
    case Timestamp => 16
    case Duration => 12
  }

  datatype Type =
    | Scalar(kind: Scalar)
    | String
    | Array(element: Type)
    | FixedArray(element: Type, size: u32)
    | Map(key: Type, value: Type)
    | Defined(resolved: Option<nat>)

  // What a definition contributes to sizes. The base of an enum is None when it is not a scalar.
  datatype Body = Enum(base: Option<Scalar>) | Struct(fields: seq<Type>) | Other

  type Bodies = seq<Body>

  // ---------- the exact size ----------

  // The struct whose size the size of t depends on.
  function StructIn(defs: Bodies, t: Type): Option<nat> {
    match t
    case FixedArray(element, _) => StructIn(defs, element)
    case Defined(Some(d)) => if d < |defs| && defs[d].Struct? then Some(d) else None
    case _ => None
  }

  // rank falls from a struct to the structs its fields contain; such a rank exists when sizes are finite.
  ghost predicate Ranked(defs: Bodies, rank: seq<nat>) {
    && |rank| == |defs|
    && forall d, f :: 0 <= d < |defs| && defs[d].Struct? && 0 <= f < |defs[d].fields| ==>
         RankBelow(defs, rank, defs[d].fields[f], rank[d])
  }

  ghost predicate RankBelow(defs: Bodies, rank: seq<nat>, t: Type, r: nat)
    requires |rank| == |defs|
  {
    match StructIn(defs, t)
    case None => true
    case Some(s) => s < |defs| && rank[s] < r
  }

  // The size in bytes without any bound, or 0 when some part is empty or has no fixed size.
  ghost function ExactType(defs: Bodies, rank: seq<nat>, t: Type, r: nat): nat
    requires Ranked(defs, rank) && RankBelow(defs, rank, t, r)
    decreases r, 0, t
  {
    match t
    case Scalar(k) => ScalarSize(k)
    case FixedArray(element, n) => n * ExactType(defs, rank, element, r)
    case Defined(Some(d)) =>
      if d < |defs| && defs[d].Struct? then ExactStruct(defs, rank, d)
      else if d < |defs| && defs[d].Enum? && defs[d].base.Some? then ScalarSize(defs[d].base.value)
      else 0
    case _ => 0
  }

  // The sum of the first n fields, or 0 when one of them is 0.
  ghost function ExactFields(defs: Bodies, rank: seq<nat>, d: nat, n: nat): Option<nat>
    requires Ranked(defs, rank) && d < |defs| && defs[d].Struct? && n <= |defs[d].fields|
    decreases rank[d], 1, n
  {
    if n == 0 then Some(0)
    else
      var before := ExactFields(defs, rank, d, n - 1);
      var last := ExactType(defs, rank, defs[d].fields[n - 1], rank[d]);
      if before.None? || last == 0 then None else Some(before.value + last)
  }

  ghost function ExactStruct(defs: Bodies, rank: seq<nat>, d: nat): nat
    requires Ranked(defs, rank) && d < |defs| && defs[d].Struct?
    decreases rank[d], 2
  {
    var total := ExactFields(defs, rank, d, |defs[d].fields|);
    if total.Some? then total.value else 0
  }

  // The exact size does not depend on the rank that shows it is well defined.
  lemma {:induction false} ExactTypeSame(defs: Bodies, rank: seq<nat>, other: seq<nat>, t: Type, r: nat, o: nat)
    requires Ranked(defs, rank) && RankBelow(defs, rank, t, r)
    requires Ranked(defs, other) && RankBelow(defs, other, t, o)
    ensures ExactType(defs, rank, t, r) == ExactType(defs, other, t, o)
    decreases r, 0, t
  {
    match t
    case FixedArray(element, _) => ExactTypeSame(defs, rank, other, element, r, o);
    case Defined(Some(d)) => if d < |defs| && defs[d].Struct? { ExactStructSame(defs, rank, other, d); }
    case _ =>
  }

  lemma {:induction false} ExactFieldsSame(defs: Bodies, rank: seq<nat>, other: seq<nat>, d: nat, n: nat)
    requires Ranked(defs, rank) && Ranked(defs, other)
    requires d < |defs| && defs[d].Struct? && n <= |defs[d].fields|
    ensures ExactFields(defs, rank, d, n) == ExactFields(defs, other, d, n)
    decreases rank[d], 1, n
  {
    if n > 0 {
      ExactFieldsSame(defs, rank, other, d, n - 1);
      ExactTypeSame(defs, rank, other, defs[d].fields[n - 1], rank[d], other[d]);
    }
  }

  lemma {:induction false} ExactStructSame(defs: Bodies, rank: seq<nat>, other: seq<nat>, d: nat)
    requires Ranked(defs, rank) && Ranked(defs, other) && d < |defs| && defs[d].Struct?
    ensures ExactStruct(defs, rank, d) == ExactStruct(defs, other, d)
    decreases rank[d], 2
  {
    ExactFieldsSame(defs, rank, other, d, |defs[d].fields|);
  }

  // ---------- 32-bit arithmetic ----------

  function Clip(x: nat): u32 { if x <= U32_MAX then x else 0 }

  // BEBOP_MUL_WOULD_OVERFLOW_U32
  predicate MulOverflows(a: u32, b: u32) { b != 0 && a > U32_MAX / b }

  lemma MulOverflowsMeans(a: u32, b: u32)
    ensures MulOverflows(a, b) <==> a * b > U32_MAX
  {
    if b != 0 {
      var q, r := U32_MAX / b, U32_MAX % b;
      assert U32_MAX == q * b + r && r < b;
      if a > q { MulMonotone(q + 1, a, b); } else { MulMonotone(a, q, b); }
    }
  }

  function Product(m: nat, x: nat): nat { m * x }

  // The 32-bit product, or 0 on overflow, is the clipped product.
  lemma LastFactor(base: u32, m: u32, x: nat)
    requires base == Clip(x)
    ensures Clip(Product(m, x)) == if base == 0 || MulOverflows(base, m) then 0 else Product(base, m)
  {
    MulOverflowsMeans(base, m);
    if x > U32_MAX && m > 0 { MulMonotone(1, m, x); }
  }

  // Once a partial product overflows, the whole product is 0 or over the limit.
  lemma NextFactor(m: u32, n: u32, x: nat)
    ensures MulOverflows(m, n) ==> Clip(Product(m, n * x)) == 0
    ensures !MulOverflows(m, n) ==> Product(m, n) <= U32_MAX && Product(m, n * x) == Product(Product(m, n), x)
  {
    MulOverflowsMeans(m, n);
    assert m * n * x == m * (n * x);
    if x > 0 { MulMonotone(1, x, m * n); }
  }

  // ---------- the size of a type ----------

  // The sizes recorded so far are right for the struct that t depends on.
  ghost predicate Recorded(defs: Bodies, rank: seq<nat>, sizes: seq<u32>, t: Type)
    requires Ranked(defs, rank) && |sizes| == |defs|
  {
    var s := StructIn(defs, t);
    s.Some? ==> s.value < |defs| && defs[s.value].Struct? && sizes[s.value] == Clip(ExactStruct(defs, rank, s.value))
  }

  // The loop multiplies its way through nested fixed arrays. Where a partial product overflows it gives
  // up with 0, and so does the exact size once it is clipped to 32 bits.
  method TypeFixedSize(defs: Bodies, sizes: array<u32>, t: Type, ghost rank: seq<nat>, ghost r: nat) returns (size: u32)
    requires Ranked(defs, rank) && RankBelow(defs, rank, t, r) && sizes.Length == |defs|
    requires Recorded(defs, rank, sizes[..], t)
    ensures size == Clip(ExactType(defs, rank, t, r))
  {
    hide Product, MulOverflows, Clip;
    var multiplier: u32 := 1;
    var at := t;
    OneTimes(ExactType(defs, rank, t, r));
    while true
      invariant RankBelow(defs, rank, at, r) && Recorded(defs, rank, sizes[..], at)
      invariant ExactType(defs, rank, t, r) == Product(multiplier, ExactType(defs, rank, at, r))
      decreases at
    {
      ghost var rest := ExactType(defs, rank, at, r);
      match at
      case Scalar(k) =>
        SmallClip(ScalarSize(k));
        LastFactor(ScalarSize(k), multiplier, rest);
        return if MulOverflows(ScalarSize(k), multiplier) then 0 else Product(ScalarSize(k), multiplier);
      case FixedArray(element, n) =>
        NextFactor(multiplier, n, ExactType(defs, rank, element, r));
        if MulOverflows(multiplier, n) { return 0; }
        multiplier := Product(multiplier, n);
        at := element;
      case Defined(Some(d)) =>
        var base: u32 := 0;
        if d < |defs| && defs[d].Enum? {
          base := if defs[d].base.Some? then ScalarSize(defs[d].base.value) else 0;
          SmallClip(base);
        } else if d < |defs| && defs[d].Struct? {
          base := sizes[d];
        } else {
          SmallClip(0);
        }
        LastFactor(base, multiplier, rest);
        if base == 0 { return 0; }
        return if MulOverflows(base, multiplier) then 0 else Product(base, multiplier);
      case _ =>
        SmallClip(0);
        LastFactor(0, multiplier, rest);
        return 0;
    }
  }

  lemma OneTimes(x: nat)
    ensures Product(1, x) == x
  {
  }

  lemma SmallClip(x: u32)
    ensures Clip(x) == x
  {
  }

  // ---------- the pass ----------

  // The structs that the fields of s[q] contain stand before position q.
  ghost predicate ContainedFirst(defs: Bodies, order: seq<nat>) {
    forall q, f ::
      0 <= q < |order| && order[q] < |defs| && defs[order[q]].Struct? && 0 <= f < |defs[order[q]].fields| ==>
        Before(defs, defs[order[q]].fields[f], order[..q])
  }

  ghost predicate Before(defs: Bodies, t: Type, earlier: seq<nat>) {
    var s := StructIn(defs, t); s.Some? ==> s.value in earlier
  }

  ghost predicate SizesRight(defs: Bodies, rank: seq<nat>, sizes: seq<u32>, done: seq<nat>)
    requires Ranked(defs, rank) && |sizes| == |defs|
  {
    forall d :: d in done && d < |defs| && defs[d].Struct? ==> sizes[d] == Clip(ExactStruct(defs, rank, d))
  }

  lemma StructInStruct(defs: Bodies, t: Type)
    ensures StructIn(defs, t).Some? ==> StructIn(defs, t).value < |defs| && defs[StructIn(defs, t).value].Struct?
  {
  }

  method StructSize(defs: Bodies, sizes: array<u32>, d: nat, ghost rank: seq<nat>) returns (size: u32)
    requires Ranked(defs, rank) && sizes.Length == |defs| && d < |defs| && defs[d].Struct?
    requires forall f :: 0 <= f < |defs[d].fields| ==> Recorded(defs, rank, sizes[..], defs[d].fields[f])
    ensures size == Clip(ExactStruct(defs, rank, d))
  {
    var total: u32, isFixed, f := 0, true, 0;
    while f < |defs[d].fields| && isFixed
      invariant f <= |defs[d].fields|
      invariant isFixed ==> ExactFields(defs, rank, d, f) == Some(total)
      invariant !isFixed ==> Clip(ExactStruct(defs, rank, d)) == 0
      decreases |defs[d].fields| - f
    {
      var fieldSize := TypeFixedSize(defs, sizes, defs[d].fields[f], rank, rank[d]);
      f := f + 1;
      if fieldSize == 0 || fieldSize > U32_MAX - total {
        isFixed := false;
        TooBig(defs, rank, d, f, |defs[d].fields|);
      } else {
        total := total + fieldSize;
      }
    }
    return if isFixed then total else 0;
  }

  // A sum that is undefined or over the limit stays so.
  lemma {:induction false} TooBig(defs: Bodies, rank: seq<nat>, d: nat, n: nat, m: nat)
    requires Ranked(defs, rank) && d < |defs| && defs[d].Struct? && n <= m <= |defs[d].fields|
    requires ExactFields(defs, rank, d, n).Some? ==> ExactFields(defs, rank, d, n).value > U32_MAX
    ensures ExactFields(defs, rank, d, m).Some? ==> ExactFields(defs, rank, d, m).value > U32_MAX
  {
    if n < m { TooBig(defs, rank, d, n, m - 1); }
  }

  // One pass in dependency order records for every struct its exact size, or 0 when that is not fixed, is
  // 0, or does not fit in 32 bits.
  method ComputeFixedSizes(defs: Bodies, order: seq<nat>, sizes: array<u32>, ghost rank: seq<nat>)
    requires Ranked(defs, rank) && sizes.Length == |defs| && ContainedFirst(defs, order) && Distinct(order)
    requires forall q :: 0 <= q < |order| ==> order[q] < |defs|
    modifies sizes
    ensures SizesRight(defs, rank, sizes[..], order)
    ensures forall d :: 0 <= d < |defs| && (d !in order || !defs[d].Struct?) ==> sizes[d] == old(sizes[d])
  {
    for i := 0 to |order|
      invariant SizesRight(defs, rank, sizes[..], order[..i])
      invariant forall d :: 0 <= d < |defs| && (d !in order || !defs[d].Struct?) ==> sizes[d] == old(sizes[d])
    {
      var d := order[i];
      assert d !in order[..i];
      if defs[d].Struct? {
        FieldsRecorded(defs, order, sizes[..], rank, i);
        var size := StructSize(defs, sizes, d, rank);
        sizes[d] := size;
      }
      assert order[..i + 1] == order[..i] + [d];
    }
    assert order[..|order|] == order;
  }

  lemma FieldsRecorded(defs: Bodies, order: seq<nat>, sizes: seq<u32>, rank: seq<nat>, i: nat)
    requires Ranked(defs, rank) && |sizes| == |defs| && ContainedFirst(defs, order)
    requires i < |order| && order[i] < |defs| && defs[order[i]].Struct?
    requires SizesRight(defs, rank, sizes, order[..i])
    ensures forall f :: 0 <= f < |defs[order[i]].fields| ==> Recorded(defs, rank, sizes, defs[order[i]].fields[f])
  {
    forall f | 0 <= f < |defs[order[i]].fields|
      ensures Recorded(defs, rank, sizes, defs[order[i]].fields[f])
    {
      var t := defs[order[i]].fields[f];
      StructInStruct(defs, t);
      assert Before(defs, t, order[..i]);
    }
  }

  // ---------- after the topological sort ----------

  // Both views describe the same definitions: every struct lists the structs its fields contain among
  // its dependencies.
  ghost predicate Matches(graph: Toposort.Defs, defs: Bodies) {
    && |graph| == |defs|
    && (forall i :: 0 <= i < |defs| ==> (defs[i].Struct? <==> graph[i].kind == Toposort.Struct))
    && forall i, f :: 0 <= i < |defs| && defs[i].Struct? && 0 <= f < |defs[i].fields| ==>
         Listed(graph[i].deps, StructIn(defs, defs[i].fields[f]))
  }

  ghost predicate Listed(deps: seq<Option<nat>>, s: Option<nat>) {
    s.Some? ==> Some(s.value) in deps
  }

  ghost function PositionIn(order: seq<nat>, d: nat): (p: nat)
    ensures p <= |order| && (d in order ==> p < |order| && order[p] == d)
  {
    if order == [] || order[0] == d then 0 else 1 + PositionIn(order[1..], d)
  }

  ghost function Positions(order: seq<nat>): seq<nat> {
    seq(|order|, d requires 0 <= d => PositionIn(order, d))
  }

  lemma ContainedAreEdges(graph: Toposort.Defs, defs: Bodies, i: nat, f: nat, s: nat)
    requires Toposort.WellFormed(graph) && Matches(graph, defs)
    requires i < |defs| && defs[i].Struct? && f < |defs[i].fields| && StructIn(defs, defs[i].fields[f]) == Some(s)
    ensures Edge(Toposort.GraphOf(graph, |graph|), s, i)
  {
    StructInStruct(defs, defs[i].fields[f]);
    assert Listed(graph[i].deps, StructIn(defs, defs[i].fields[f]));
    var j :| 0 <= j < |graph[i].deps| && graph[i].deps[j] == Some(s);
    assert Toposort.MakesEdge(graph, i, j);
    assert Toposort.DependsOn(graph, i, s, |graph[i].deps|);
    Toposort.GraphMeans(graph, |graph|);
  }

  // An order of the definition graph makes the sizes well defined and visits contained structs first.
  lemma OrderRanks(graph: Toposort.Defs, defs: Bodies, order: seq<nat>)
    requires Toposort.WellFormed(graph) && Matches(graph, defs)
    requires SourcesFirst(Toposort.GraphOf(graph, |graph|), order) && Permutation(order, |graph|)
    ensures ContainedFirst(defs, order) && Ranked(defs, Positions(order))
  {
    hide Toposort.GraphOf, Matches, Ranked;
    MatchesLength(graph, defs);
    forall q, f | 0 <= q < |order| && order[q] < |defs| && defs[order[q]].Struct? && 0 <= f < |defs[order[q]].fields|
      ensures Before(defs, defs[order[q]].fields[f], order[..q])
    {
      var s := StructIn(defs, defs[order[q]].fields[f]);
      if s.Some? { ContainedAreEdges(graph, defs, order[q], f, s.value); }
    }
    PositionsRank(defs, order);
  }

  lemma PositionsRank(defs: Bodies, order: seq<nat>)
    requires ContainedFirst(defs, order) && Permutation(order, |defs|)
    ensures Ranked(defs, Positions(order))
  {
    forall d, f | 0 <= d < |defs| && defs[d].Struct? && 0 <= f < |defs[d].fields|
      ensures RankBelow(defs, Positions(order), defs[d].fields[f], Positions(order)[d])
    {
      var q := PositionIn(order, d);
      StructInStruct(defs, defs[d].fields[f]);
      assert Before(defs, defs[order[q]].fields[f], order[..q]);
      var s := StructIn(defs, defs[d].fields[f]);
      if s.Some? {
        var p :| 0 <= p < q && order[..q][p] == s.value;
        assert order[PositionIn(order, s.value)] == order[p];
      }
    }
  }

  lemma MatchesLength(graph: Toposort.Defs, defs: Bodies)
    requires Matches(graph, defs)
    ensures |graph| == |defs|
  {
  }

  // Sort, then size: when the definitions are acyclic every struct gets its exact size, clipped.
  method SortAndSize(graph: Toposort.Defs, defs: Bodies, grants: nat, sizes: array<u32>) returns (r: Toposort.Outcome)
    requires Toposort.WellFormed(graph) && Matches(graph, defs) && sizes.Length == |graph| == |defs|
    modifies sizes
    ensures r.Sorted? <==> Acyclic(Toposort.GraphOf(graph, |graph|)) && graph != [] && !r.OutOfMemory?
    ensures r.Sorted? ==> Ranked(defs, Positions(r.order))
    ensures r.Sorted? ==> forall d :: 0 <= d < |defs| && defs[d].Struct? ==>
                            sizes[d] == Clip(ExactStruct(defs, Positions(r.order), d))
    ensures !r.Sorted? ==> sizes[..] == old(sizes[..])
  {
    hide Toposort.GraphOf, Matches, Acyclic, Toposort.WellFormed, SourcesFirst, ContainedFirst, Ranked, CycleBefore;
    r := Toposort.Sort(graph, grants);
    if r.Sorted? {
      OrderRanks(graph, defs, r.order);
      ComputeFixedSizes(defs, r.order, sizes, Positions(r.order));
    }
  }
}
