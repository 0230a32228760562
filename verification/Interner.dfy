/** The string interner: parallel arrays indexed by handle, and chains through next[] for strings whose
    hashes collide. The hash is an arbitrary function; the lookup table of first indices is a plain map. */
module Interner {
  import opened Bits
  import opened Wrappers

  const DEFAULT_CAPACITY: nat := 256

  type Bytes = seq<byte>

  // ---------- chains ----------

  // Index i, whose string hashes to h.
  ghost predicate HashesTo(strings: seq<Bytes>, hash: Bytes -> nat, i: nat, h: nat) {
    0 < i < |strings| && hash(strings[i]) == h
  }

  // j is the next index after i with hash h, or 0 when there is none.
  ghost predicate NextAfter(strings: seq<Bytes>, hash: Bytes -> nat, i: nat, h: nat, j: nat) {
    && (j != 0 ==> i < j && HashesTo(strings, hash, j, h))
    && (forall k :: HashesTo(strings, hash, k, h) && i < k ==> 0 < j <= k)
  }

  // Every chain lists the indices of one hash in increasing order, so a walk along it ends.
  ghost predicate Linked(strings: seq<Bytes>, hash: Bytes -> nat, next: seq<nat>, lookup: map<nat, nat>) {
    && |next| == |strings| > 0
    && (forall i :: 0 < i < |strings| ==> NextAfter(strings, hash, i, hash(strings[i]), next[i]))
    && (forall h :: h in lookup ==> lookup[h] != 0 && NextAfter(strings, hash, 0, h, lookup[h]))
    && (forall i :: 0 < i < |strings| ==> hash(strings[i]) in lookup)
  }

  // No two handles stand for the same string.
  ghost predicate Canonical(strings: seq<Bytes>) {
    forall i, j :: 0 < i < j < |strings| ==> strings[i] != strings[j]
  }

  ghost predicate Known(strings: seq<Bytes>, s: Bytes) { exists i :: 0 < i < |strings| && strings[i] == s }

  lemma NextAfterAppend(strings: seq<Bytes>, hash: Bytes -> nat, i: nat, h: nat, j: nat, s: Bytes)
    requires NextAfter(strings, hash, i, h, j) && i < |strings|
    ensures NextAfter(strings + [s], hash, i, h, if j == 0 && hash(s) == h then |strings| else j)
  {
    var after := strings + [s];
    forall k | HashesTo(after, hash, k, h) && i < k
      ensures k == |strings| || HashesTo(strings, hash, k, h)
    {
    }
  }

  lemma AppendFirst(strings: seq<Bytes>, hash: Bytes -> nat, next: seq<nat>, lookup: map<nat, nat>, s: Bytes)
    requires Linked(strings, hash, next, lookup) && hash(s) !in lookup
    ensures Linked(strings + [s], hash, next + [0], lookup[hash(s) := |strings|])
  {
    hide NextAfter;
    var after, links, table := strings + [s], next + [0], lookup[hash(s) := |strings|];
    NothingAfter(after, hash, hash(s));
    forall i | 0 < i < |strings|
      ensures NextAfter(after, hash, i, hash(after[i]), links[i])
    {
      NextAfterAppend(strings, hash, i, hash(strings[i]), next[i], s);
    }
    forall h | h in lookup
      ensures NextAfter(after, hash, 0, h, table[h])
    {
      NextAfterAppend(strings, hash, 0, h, lookup[h], s);
    }
    NothingBefore(strings, hash, hash(s));
    NextAfterAppend(strings, hash, 0, hash(s), 0, s);
  }

  lemma NothingAfter(strings: seq<Bytes>, hash: Bytes -> nat, h: nat)
    requires |strings| > 0
    ensures NextAfter(strings, hash, |strings| - 1, h, 0)
  {
  }

  lemma NothingBefore(strings: seq<Bytes>, hash: Bytes -> nat, h: nat)
    requires forall i :: 0 < i < |strings| ==> hash(strings[i]) != h
    ensures NextAfter(strings, hash, 0, h, 0)
  {
  }

  // The last index of a chain is linked to the new one.
  lemma AppendLinked(
      strings: seq<Bytes>, hash: Bytes -> nat, next: seq<nat>, lookup: map<nat, nat>, s: Bytes, tail: nat)
    requires Linked(strings, hash, next, lookup) && HashesTo(strings, hash, tail, hash(s)) && next[tail] == 0
    ensures Linked(strings + [s], hash, next[tail := |strings|] + [0], lookup)
  {
    hide NextAfter;
    var after, links := strings + [s], next[tail := |strings|] + [0];
    NothingAfter(after, hash, hash(s));
    forall i | 0 < i < |strings|
      ensures NextAfter(after, hash, i, hash(after[i]), links[i])
    {
      NextAfterAppend(strings, hash, i, hash(strings[i]), next[i], s);
      OnlyTail(strings, hash, i, tail, next[i], hash(s));
    }
    forall h | h in lookup
      ensures NextAfter(after, hash, 0, h, lookup[h])
    {
      NextAfterAppend(strings, hash, 0, h, lookup[h], s);
    }
  }

  // Of the indices with one hash only the last has no successor.
  lemma OnlyTail(strings: seq<Bytes>, hash: Bytes -> nat, i: nat, tail: nat, j: nat, h: nat)
    requires HashesTo(strings, hash, tail, h) && NextAfter(strings, hash, tail, h, 0)
    requires 0 < i < |strings| && NextAfter(strings, hash, i, hash(strings[i]), j)
    ensures j == 0 && hash(strings[i]) == h ==> i == tail
  {
    if hash(strings[i]) == h { assert HashesTo(strings, hash, i, h); }
  }

  // What a walk knows at index idx: the string is at no smaller index.
  ghost predicate NotBelow(strings: seq<Bytes>, s: Bytes, idx: nat) {
    forall k :: 0 < k < idx && k < |strings| ==> strings[k] != s
  }

  lemma WalkStart(strings: seq<Bytes>, hash: Bytes -> nat, next: seq<nat>, lookup: map<nat, nat>, s: Bytes)
    requires Linked(strings, hash, next, lookup) && hash(s) in lookup
    ensures HashesTo(strings, hash, lookup[hash(s)], hash(s)) && NotBelow(strings, s, lookup[hash(s)])
  {
    forall k | 0 < k < |strings| && strings[k] == s
      ensures k >= lookup[hash(s)]
    {
      assert HashesTo(strings, hash, k, hash(s));
      assert NextAfter(strings, hash, 0, hash(s), lookup[hash(s)]);
    }
  }

  lemma WalkStep(strings: seq<Bytes>, hash: Bytes -> nat, next: seq<nat>, lookup: map<nat, nat>, s: Bytes, idx: nat)
    requires Linked(strings, hash, next, lookup) && HashesTo(strings, hash, idx, hash(s))
    requires NotBelow(strings, s, idx) && strings[idx] != s
    ensures next[idx] == 0 ==> !Known(strings, s)
    ensures next[idx] != 0 ==> idx < next[idx] && HashesTo(strings, hash, next[idx], hash(s))
    ensures next[idx] != 0 ==> NotBelow(strings, s, next[idx])
  {
    assert NextAfter(strings, hash, idx, hash(s), next[idx]);
    forall k | 0 < k < |strings| && strings[k] == s
      ensures 0 < next[idx] <= k
    {
      assert HashesTo(strings, hash, k, hash(s));
    }
  }

  lemma NoChain(strings: seq<Bytes>, hash: Bytes -> nat, next: seq<nat>, lookup: map<nat, nat>, s: Bytes)
    requires Linked(strings, hash, next, lookup) && hash(s) !in lookup
    ensures !Known(strings, s)
  {
    hide NextAfter;
  }

  lemma StillCanonical(strings: seq<Bytes>, s: Bytes)
    requires Canonical(strings) && !Known(strings, s)
    ensures Canonical(strings + [s])
  {
  }

  // The recorded lengths and hashes are those of the strings.
  ghost predicate Recorded(strings: seq<Bytes>, hash: Bytes -> nat, hashes: seq<nat>, lengths: seq<nat>) {
    && |hashes| == |lengths| == |strings|
    && forall i :: 0 < i < |strings| ==> lengths[i] == |strings[i]| && hashes[i] == hash(strings[i])
  }

  // ---------- the interner ----------

  class Interner {
    const hash: Bytes -> nat
    var strings: array<Bytes>
    var hashes: array<nat>
    var lengths: array<nat>
    var next: array<nat>
    var lookup: map<nat, nat>
    var capacity: nat
    var count: nat

    // The strings by handle; handle 0 is the null string.
    function Contents(): seq<Bytes>
      reads this, strings
      requires count <= strings.Length
    {
      strings[..count]
    }

    ghost predicate Valid()
      reads this, strings, hashes, lengths, next
    {
      && strings.Length == hashes.Length == lengths.Length == next.Length == capacity
      && lengths != next && lengths != hashes && hashes != next && 0 < count <= capacity
      && Linked(Contents(), hash, next[..count], lookup) && Canonical(Contents())
      && Recorded(Contents(), hash, hashes[..count], lengths[..count])
    }

    constructor (hash: Bytes -> nat, capacity: nat)
      ensures Valid() && |Contents()| == 1 && this.hash == hash
      ensures fresh(strings) && fresh(hashes) && fresh(lengths) && fresh(next)
    {
      this.hash := hash;
      var cap := if capacity == 0 then DEFAULT_CAPACITY else capacity;
      strings, lookup := new Bytes[cap](_ => []), map[];
      hashes, lengths, next := new nat[cap](_ => 0), new nat[cap](_ => 0), new nat[cap](_ => 0);
      this.capacity, count := cap, 1;
    }

    // Walks the chain of a hash: the index of the string, or the end of the chain.
    method Search(s: Bytes, first: nat) returns (found: bool, idx: nat)
      requires Valid() && hash(s) in lookup && first == lookup[hash(s)]
      ensures HashesTo(Contents(), hash, idx, hash(s))
      ensures found ==> strings[idx] == s
      ensures !found ==> !Known(Contents(), s) && next[idx] == 0
    {
      hide Linked, Canonical, Known, NotBelow;
      idx := first;
      WalkStart(Contents(), hash, next[..count], lookup, s);
      while true
        invariant HashesTo(Contents(), hash, idx, hash(s)) && NotBelow(Contents(), s, idx)
        decreases count - idx
      {
        if lengths[idx] == |s| && strings[idx] == s {
          return true, idx;
        }
        WalkStep(Contents(), hash, next[..count], lookup, s, idx);
        if next[idx] == 0 {
          return false, idx;
        }
        idx := next[idx];
      }
    }

    // The handle of a string: the one it already has, or a new one. 0 exactly when the string is longer
    // than 32 bits can say, or is new and memory for it or for larger arrays is refused.
    method Intern(s: Bytes, growRoom: bool, copyRoom: bool) returns (handle: nat)
      requires Valid()
      modifies this, strings, hashes, lengths, next
      ensures Valid() && handle < count
      ensures strings == old(strings) || fresh(strings)
      ensures hashes == old(hashes) || fresh(hashes)
      ensures lengths == old(lengths) || fresh(lengths)
      ensures next == old(next) || fresh(next)
      ensures handle == 0 <==>
                |s| > U32_MAX
                || (!old(Known(Contents(), s)) && !(copyRoom && (growRoom || old(count) < old(capacity))))
      ensures handle != 0 ==> strings[handle] == s
      ensures Contents() == if handle == 0 || old(Known(Contents(), s)) then old(Contents()) else old(Contents()) + [s]
    {
      hide Linked, Canonical, Recorded;
      if |s| > U32_MAX {
        return 0;
      }
      var h := hash(s);
      var tail := 0;
      if h in lookup {
        var found, idx := Search(s, lookup[h]);
        if found {
          assert 0 < idx < |Contents()| && Contents()[idx] == s;
          return idx;
        }
        tail := idx;
      } else {
        NoChain(Contents(), hash, next[..count], lookup, s);
      }
      if count >= capacity {
        if !growRoom {
          return 0;
        }
        Grow();
      }
      if !copyRoom {
        return 0;
      }
      Append(s, tail);
      handle := count - 1;
      assert Contents()[handle] == s;
    }

    // Doubles the four arrays and copies the part in use.
    method Grow()
      requires Valid()
      modifies this`strings, this`hashes, this`lengths, this`next, this`capacity
      ensures Valid() && Contents() == old(Contents()) && next[..count] == old(next[..count])
      ensures capacity == 2 * old(capacity)
      ensures fresh(strings) && fresh(hashes) && fresh(lengths) && fresh(next)
    {
      hide Linked, Canonical, Recorded;
      var newStrings := new Bytes[capacity * 2];
      CopyFront(strings, newStrings, count);
      var newHashes := new nat[capacity * 2];
      CopyFront(hashes, newHashes, count);
      var newLengths := new nat[capacity * 2];
      CopyFront(lengths, newLengths, count);
      var newNext := new nat[capacity * 2];
      CopyFront(next, newNext, count);
      strings, hashes, lengths, next := newStrings, newHashes, newLengths, newNext;
      capacity := capacity * 2;
    }

    // memcpy of the first n entries
    static method CopyFront<T>(source: array<T>, target: array<T>, n: nat)
      requires n <= source.Length && n <= target.Length && source != target
      modifies target
      ensures target[..n] == source[..n]
    {
      for i := 0 to n
        invariant target[..i] == source[..i]
      {
        target[i] := source[i];
      }
    }

    // Puts a new string at index count and at the end of its chain.
    method Append(s: Bytes, tail: nat)
      requires Valid() && count < capacity && !Known(Contents(), s)
      requires if tail == 0 then hash(s) !in lookup
               else HashesTo(Contents(), hash, tail, hash(s)) && next[tail] == 0
      modifies this`count, this`lookup, strings, hashes, lengths, next
      ensures Valid() && Contents() == old(Contents()) + [s]
    {
      hide Linked, Canonical, Known;
      ghost var before, links := Contents(), next[..count];
      ghost var allHashes, allLengths := hashes[..count] + [hash(s)], lengths[..count] + [|s|];
      ghost var newLinks := if tail == 0 then links + [0] else links[tail := count] + [0];
      if tail == 0 {
        AppendFirst(before, hash, links, lookup, s);
      } else {
        AppendLinked(before, hash, links, lookup, s, tail);
      }
      StillCanonical(before, s);
      assert Recorded(before + [s], hash, allHashes, allLengths);
      var idx := count;
      count := count + 1;
      strings[idx] := s;
      hashes[idx] := hash(s);
      lengths[idx] := |s|;
      next[idx] := 0;
      if tail != 0 {
        next[tail] := idx;
      } else {
        lookup := lookup[hash(s) := idx];
      }
      assert Contents() == before + [s] && next[..count] == newLinks;
      assert hashes[..count] == allHashes && lengths[..count] == allLengths;
    }

    method Get(handle: nat) returns (r: Option<Bytes>)
      requires Valid()
      ensures r == if 0 < handle < |Contents()| then Some(Contents()[handle]) else None
    {
      if handle == 0 || handle >= count {
        return None;
      }
      return Some(strings[handle]);
    }
  }

  // Over any run of calls, two calls that succeed return the same handle if and only if their strings are
  // equal, and every handle still stands for its string at the end, whatever the hash and however often
  // the arrays grew.
  method InternAll(hash: Bytes -> nat, capacity: nat, texts: seq<Bytes>, room: nat -> (bool, bool))
    returns (interner: Interner, handles: seq<nat>)
    ensures fresh(interner) && interner.Valid() && |handles| == |texts|
    ensures forall i, j :: 0 <= i < |texts| && 0 <= j < |texts| && handles[i] != 0 && handles[j] != 0 ==>
              (handles[i] == handles[j] <==> texts[i] == texts[j])
    ensures forall i :: 0 <= i < |texts| && handles[i] != 0 ==>
              handles[i] < |interner.Contents()| && interner.Contents()[handles[i]] == texts[i]
  {
    hide Linked, Recorded, Known;
    handles := [];
    interner := new Interner(hash, capacity);
    for n := 0 to |texts|
      invariant interner.Valid() && |handles| == n
      invariant fresh(interner.strings) && fresh(interner.hashes) && fresh(interner.lengths) && fresh(interner.next)
      invariant forall i :: 0 <= i < n && handles[i] != 0 ==>
                  handles[i] < |interner.Contents()| && interner.Contents()[handles[i]] == texts[i]
    {
      ghost var before := interner.Contents();
      var handle := interner.Intern(texts[n], room(n).0, room(n).1);
      handles := handles + [handle];
      assert forall i :: 0 <= i < |before| ==> interner.Contents()[i] == before[i];
    }
  }
}
