/** Runs of the hash map: whatever is called in whatever order, a lookup returns the value last set for the key. */
module MapRuns {
  import opened SwissTable
  import opened Wrappers

  datatype Call<K, V> = Set(key: K, value: V, room: bool) | Get(key: K) | Remove(key: K) | Clear

  // The flag that the call returns, and the value where it is a lookup.
  datatype Reply<V> = Reply(ok: bool, value: Option<V>)

  // The value last set for key by the first n calls, unless it was removed since.
  ghost function Latest<K(!new), V>(calls: seq<Call<K, V>>, n: nat, eq: (K, K) -> bool, key: K): Option<V>
    requires n <= |calls|
  {
    if n == 0 then None
    else
      match calls[n - 1]
      case Set(k, v, _) => if eq(k, key) then Some(v) else Latest(calls, n - 1, eq, key)
      case Get(_) => Latest(calls, n - 1, eq, key)
      case Remove(k) => if eq(k, key) then None else Latest(calls, n - 1, eq, key)
      case Clear => None
  }

  // What a finite map with this equality holds for key.
  ghost function Lookup<K(!new), V>(m: map<K, V>, eq: (K, K) -> bool, key: K): Option<V> {
    var k := Stored(m, eq, key);
    if k in m then Some(m[k]) else None
  }

  ghost predicate Agrees<K(!new), V>(m: map<K, V>, eq: (K, K) -> bool, calls: seq<Call<K, V>>, n: nat)
    requires n <= |calls|
  {
    forall key :: Lookup(m, eq, key) == Latest(calls, n, eq, key)
  }

  // A value found under any key that eq identifies with the one asked for is the value held for it.
  lemma LookupIs<K(!new), V>(m: map<K, V>, hash: K -> Hash, eq: (K, K) -> bool, key: K, k: K)
    requires Lawful(hash, eq) && Distinct(m, eq) && k in m && eq(k, key)
    ensures Lookup(m, eq, key) == Some(m[k])
  {
    StoredIs(m, hash, eq, key, k);
  }

  lemma LookupNone<K(!new), V>(m: map<K, V>, hash: K -> Hash, eq: (K, K) -> bool, key: K)
    requires Lawful(hash, eq)
    ensures Lookup(m, eq, key) == None <==> forall k :: k in m ==> !eq(k, key)
  {
  }

  lemma SetLookup<K(!new), V>(m: map<K, V>, hash: K -> Hash, eq: (K, K) -> bool, k: K, v: V, key: K)
    requires Lawful(hash, eq) && Distinct(m, eq)
    requires Distinct(m[Stored(m, eq, k) := v], eq)
    ensures Lookup(m[Stored(m, eq, k) := v], eq, key) == if eq(k, key) then Some(v) else Lookup(m, eq, key)
  {
    hide Lookup, Distinct;
    var s := Stored(m, eq, k);
    var m' := m[s := v];
    assert eq(s, k);
    if eq(k, key) {
      assert eq(s, key);
      LookupIs(m', hash, eq, key, s);
    } else {
      assert !eq(s, key) by { assert eq(s, key) ==> eq(k, s) && eq(k, key); }
      if i :| i in m && eq(i, key) {
        LookupIs(m, hash, eq, key, i);
        LookupIs(m', hash, eq, key, i);
      } else {
        LookupNone(m, hash, eq, key);
        LookupNone(m', hash, eq, key);
      }
    }
  }

  lemma RemoveLookup<K(!new), V>(m: map<K, V>, hash: K -> Hash, eq: (K, K) -> bool, k: K, key: K)
    requires Lawful(hash, eq) && Distinct(m, eq) && Distinct(m - {Stored(m, eq, k)}, eq)
    ensures Lookup(m - {Stored(m, eq, k)}, eq, key) == if eq(k, key) then None else Lookup(m, eq, key)
  {
    hide Lookup;
    var s := Stored(m, eq, k);
    var m' := m - {s};
    if eq(k, key) {
      forall i | i in m'
        ensures !eq(i, key)
      {
        if eq(i, key) {
          assert eq(key, k);
          assert eq(i, k);
          StoredIs(m, hash, eq, k, i);
        }
      }
      LookupNone(m', hash, eq, key);
    } else {
      if i :| i in m && eq(i, key) {
        assert eq(s, k) && !eq(k, key) ==> !eq(s, key) by { assert eq(s, k) ==> eq(k, s); }
        LookupIs(m, hash, eq, key, i);
        LookupIs(m', hash, eq, key, i);
      } else {
        LookupNone(m, hash, eq, key);
        LookupNone(m', hash, eq, key);
      }
    }
  }

  // What a call does to the abstract map.
  ghost function After<K(!new), V>(m: map<K, V>, eq: (K, K) -> bool, call: Call<K, V>): map<K, V> {
    match call
    case Set(k, v, _) => m[Stored(m, eq, k) := v]
    case Get(_) => m
    case Remove(k) => m - {Stored(m, eq, k)}
    case Clear => map[]
  }

  // One call keeps the agreement of the abstract map with the calls made.
  lemma CallAgrees<K(!new), V>(
      m: map<K, V>, m': map<K, V>, hash: K -> Hash, eq: (K, K) -> bool, calls: seq<Call<K, V>>, n: nat)
    requires n < |calls| && Agrees(m, eq, calls, n)
    requires Lawful(hash, eq) && Distinct(m, eq) && Distinct(m', eq)
    requires m' == After(m, eq, calls[n])
    ensures Agrees(m', eq, calls, n + 1)
  {
    hide Lookup, Stored, Distinct, Lawful;
    forall key
      ensures Lookup(m', eq, key) == Latest(calls, n + 1, eq, key)
    {
      match calls[n]
      case Set(k, v, _) => SetLookup(m, hash, eq, k, v, key);
      case Get(_) =>
      case Remove(k) => RemoveLookup(m, hash, eq, k, key);
      case Clear => LookupNone(m', hash, eq, key);
    }
  }

  // All sets among the first n calls returned true.
  predicate SetsSucceed<K, V>(calls: seq<Call<K, V>>, replies: seq<Reply<V>>, n: nat)
    requires n <= |calls| && n <= |replies|
  {
    forall i :: 0 <= i < n && calls[i].Set? ==> replies[i].ok
  }

  // What a call returns when the sets before it returned true.
  ghost predicate Right<K(!new), V>(calls: seq<Call<K, V>>, n: nat, eq: (K, K) -> bool, reply: Reply<V>)
    requires n < |calls|
  {
    match calls[n]
    case Get(k) => reply.value == Latest(calls, n, eq, k) && reply.ok == reply.value.Some?
    case Remove(k) => reply.ok <==> Latest(calls, n, eq, k).Some?
    case _ => true
  }

  lemma EmptyAgrees<K(!new), V>(hash: K -> Hash, eq: (K, K) -> bool, calls: seq<Call<K, V>>)
    requires Lawful(hash, eq)
    ensures Agrees(map[], eq, calls, 0)
  {
  }

  method Do<K(0, ==, !new), V(0)>(m: HashMap<K, V>, call: Call<K, V>) returns (reply: Reply<V>)
    requires m.Valid()
    modifies m, m.ctrl, m.slots
    ensures m.Valid()
    ensures (m.ctrl == old(m.ctrl) || fresh(m.ctrl)) && (m.slots == old(m.slots) || fresh(m.slots))
    ensures (call.Set? ==> reply.ok) ==> m.model == After(old(m.model), m.eq, call)
    ensures call.Get? ==> reply.value == Lookup(old(m.model), m.eq, call.key) && reply.ok == reply.value.Some?
    ensures call.Remove? ==> (reply.ok <==> Lookup(old(m.model), m.eq, call.key).Some?)
  {
    hide Stored, Inv;
    match call
    case Set(k, v, room) =>
      var ok := m.Set(k, v, room);
      reply := Reply(ok, None);
    case Get(k) =>
      var r := m.Get(k);
      reply := Reply(r.Some?, r);
    case Remove(k) =>
      var ok := m.Remove(k);
      reply := Reply(ok, None);
    case Clear =>
      m.Clear();
      reply := Reply(true, None);
  }

  lemma AnswerRight<K(!new), V>(m: map<K, V>, eq: (K, K) -> bool, calls: seq<Call<K, V>>, n: nat, reply: Reply<V>)
    requires n < |calls| && Agrees(m, eq, calls, n)
    requires var call := calls[n];
             && (call.Get? ==> reply.value == Lookup(m, eq, call.key) && reply.ok == reply.value.Some?)
             && (call.Remove? ==> (reply.ok <==> Lookup(m, eq, call.key).Some?))
    ensures Right(calls, n, eq, reply)
  {
    hide Lookup, Latest;
  }

  // Every call was answered as it should be, as long as the sets before it returned true.
  ghost predicate AllRight<K(!new), V>(calls: seq<Call<K, V>>, replies: seq<Reply<V>>, eq: (K, K) -> bool) {
    && |replies| <= |calls|
    && forall i :: 0 <= i < |replies| && SetsSucceed(calls, replies, i) ==> Right(calls, i, eq, replies[i])
  }

  lemma NoneWrong<K(!new), V>(calls: seq<Call<K, V>>, eq: (K, K) -> bool)
    ensures AllRight(calls, [], eq)
  {
  }

  lemma OneMore<K(!new), V>(calls: seq<Call<K, V>>, replies: seq<Reply<V>>, eq: (K, K) -> bool, reply: Reply<V>)
    requires AllRight(calls, replies, eq) && |replies| < |calls|
    requires SetsSucceed(calls, replies, |replies|) ==> Right(calls, |replies|, eq, reply)
    ensures AllRight(calls, replies + [reply], eq)
    ensures SetsSucceed(calls, replies + [reply], |replies| + 1) ==>
              SetsSucceed(calls, replies, |replies|) && (calls[|replies|].Set? ==> reply.ok)
  {
    hide Right;
    forall i | 0 <= i <= |replies| && SetsSucceed(calls, replies + [reply], i)
      ensures SetsSucceed(calls, replies, i)
    {
      assert forall j :: 0 <= j < i ==> (replies + [reply])[j] == replies[j];
    }
    if SetsSucceed(calls, replies + [reply], |replies| + 1) {
      assert (replies + [reply])[|replies|] == reply;
      assert SetsSucceed(calls, replies + [reply], |replies|);
    }
  }

  // From an empty map, over any run of calls, under any equality that the hash respects.
  method Run<K(0, ==, !new), V(0)>(hash: K -> Hash, eq: (K, K) -> bool, calls: seq<Call<K, V>>)
    returns (replies: seq<Reply<V>>)
    requires Lawful(hash, eq)
    ensures |replies| == |calls| && AllRight(calls, replies, eq)
  {
    hide Lookup, Stored, Distinct, Lawful, Latest, Inv, Agrees, Right, AllRight, SetsSucceed, After;
    var m := new HashMap<K, V>(hash, eq);
    replies := [];
    EmptyAgrees(hash, eq, calls);
    assert AllRight(calls, replies, eq) by { NoneWrong(calls, eq); }
    for n := 0 to |calls|
      invariant |replies| == n && m.Valid() && m.hash == hash && m.eq == eq
      invariant fresh(m) && fresh(m.ctrl) && fresh(m.slots)
      invariant SetsSucceed(calls, replies, n) ==> Agrees(m.model, eq, calls, n)
      invariant AllRight(calls, replies, eq)
    {
      ghost var before := m.model;
      m.SnapshotFacts();
      var reply := Do(m, calls[n]);
      m.SnapshotFacts();
      if SetsSucceed(calls, replies, n) {
        AnswerRight(before, eq, calls, n, reply);
        if calls[n].Set? ==> reply.ok { CallAgrees(before, m.model, hash, eq, calls, n); }
      }
      OneMore(calls, replies, eq, reply);
      replies := replies + [reply];
    }
  }
}
