/** Reading indexed messages: the eager and the lazy validator, the lookup by tag, the iterator. */
module MessageReader {
  import opened Bits
  import opened MessageIndex

  datatype Index = Index(
    encoded: Bytes,
    boundaries: nat,   // offset of the boundary table
    directory: nat,    // offset of the tag directory
    fieldCount: nat,
    offsetWidth: nat,
    kind: nat)

  // ---------- what an encoded message is ----------

  function Control(e: Bytes): byte
    requires |e| > 0
  {
    e[|e| - 1]
  }

  function KindOf(e: Bytes): nat
    requires |e| > 0
  {
    Control(e) as int / 4 % 8
  }

  function WidthOf(e: Bytes): nat
    requires |e| > 0
  {
    var code := Control(e) as int % 4;
    if code == 0 then 1 else if code == 1 then 2 else 4
  }

  predicate Framed(e: Bytes) {
    && |e| >= SIZE_LEN + 1
    && LoadLE(e, 0, 4) == |e| - SIZE_LEN
    && Control(e) < 0x20 && Control(e) as int % 4 != 3
    && (KindOf(e) == BLOCKS ==> |e| - SIZE_LEN >= 2)
    && DirectorySize(KindOf(e), e) + 1 <= |e| - SIZE_LEN
  }

  function DirectoryOf(e: Bytes): (dir: Bytes)
    requires Framed(e)
    ensures Shaped(KindOf(e), dir)
  {
    e[|e| - 1 - DirectorySize(KindOf(e), e)..|e| - 1]
  }

  function CountOf(e: Bytes): nat
    requires Framed(e)
  {
    FieldCount(KindOf(e), DirectoryOf(e))
  }

  function TableSize(e: Bytes): nat
    requires Framed(e)
  {
    if CountOf(e) == 0 then 0 else (CountOf(e) - 1) * WidthOf(e)
  }

  predicate Indexed(e: Bytes) {
    && Framed(e)
    && DirectoryOk(KindOf(e), DirectoryOf(e))
    && TableSize(e) + DirectorySize(KindOf(e), e) + 1 <= |e| - SIZE_LEN
    && (CountOf(e) == 0 ==> |e| - SIZE_LEN == 1)
  }

  function IndexOf(e: Bytes): (x: Index)
    requires Indexed(e)
  {
    var directory := |e| - 1 - DirectorySize(KindOf(e), e);
    Index(e, directory - TableSize(e), directory, CountOf(e), WidthOf(e), KindOf(e))
  }

  // x is what the lazy validator hands out.
  predicate Usable(x: Index) {
    Indexed(x.encoded) && x == IndexOf(x.encoded)
  }

  function PayloadSize(x: Index): nat
    requires Usable(x)
  {
    x.boundaries - SIZE_LEN
  }

  lemma EntryInTable(x: Index, i: nat)
    requires Usable(x) && i + 1 < x.fieldCount
    ensures x.boundaries + i * x.offsetWidth + x.offsetWidth <= x.directory
  {
    assert (i + 1) * x.offsetWidth <= (x.fieldCount - 1) * x.offsetWidth;
  }

  function Boundary(x: Index, i: nat): u32
    requires Usable(x) && i + 1 < x.fieldCount
  {
    EntryInTable(x, i);
    LoadLE(x.encoded, x.boundaries + i * x.offsetWidth, x.offsetWidth)
  }

  predicate BoundariesOk(x: Index)
    requires Usable(x)
  {
    forall i :: 0 <= i < x.fieldCount - 1 ==>
      Boundary(x, i) <= PayloadSize(x) && (i > 0 ==> Boundary(x, i - 1) <= Boundary(x, i))
  }

  predicate WellFormed(e: Bytes) {
    Indexed(e) && BoundariesOk(IndexOf(e))
  }

  // ---------- field access by rank ----------

  // Where in the payload the field of this rank starts and the one before it ends.
  function Edge(x: Index, rank: nat): nat
    requires Usable(x) && rank <= x.fieldCount
  {
    if rank == 0 then 0 else if rank == x.fieldCount then PayloadSize(x) else Boundary(x, rank - 1)
  }

  function FieldAtRank(x: Index, rank: nat): Found
    requires Usable(x)
  {
    if rank >= x.fieldCount then Found(INVALID, false, NO_FIELD)
    else
      var start := Edge(x, rank);
      var end := Edge(x, rank + 1);
      if end < start || end > PayloadSize(x) then Found(MALFORMED, false, NO_FIELD)
      else Found(OK, true, Slice(SIZE_LEN + start, end - start))
  }

  // A lazily opened message is well formed exactly when every field can be fetched.
  lemma LazyEqualsEager(e: Bytes)
    ensures WellFormed(e)
       <==> Indexed(e) && forall r :: 0 <= r < CountOf(e) ==> FieldAtRank(IndexOf(e), r).status == OK
  {
    if Indexed(e) {
      var x := IndexOf(e);
      if forall r :: 0 <= r < x.fieldCount ==> FieldAtRank(x, r).status == OK {
        forall i | 0 <= i < x.fieldCount - 1
          ensures Boundary(x, i) <= PayloadSize(x) && (i > 0 ==> Boundary(x, i - 1) <= Boundary(x, i))
        {
          assert FieldAtRank(x, i).status == OK;
        }
      }
      if BoundariesOk(x) {
        forall r | 0 <= r < x.fieldCount
          ensures FieldAtRank(x, r).status == OK
        {
          if r > 0 { assert Boundary(x, r - 1) <= PayloadSize(x); }
        }
      }
    }
  }

  function Cut(e: Bytes, s: Slice): Bytes
    requires s.start + s.length <= |e|
  {
    e[s.start..s.start + s.length]
  }

  // The bytes of the fields of rank 0..n-1, one after the other.
  function Fields(e: Bytes, n: nat): Bytes
    requires WellFormed(e) && n <= CountOf(e)
  {
    if n == 0 then []
    else
      LazyEqualsEager(e);
      assert FieldAtRank(IndexOf(e), n - 1).status == OK;
      Fields(e, n - 1) + Cut(e, FieldAtRank(IndexOf(e), n - 1).field)
  }

  lemma NoFields(e: Bytes)
    requires WellFormed(e)
    ensures Edge(IndexOf(e), 0) == 0 && Fields(e, 0) == []
  {
  }

  lemma FieldsNext(e: Bytes, n: nat)
    requires WellFormed(e) && 0 < n <= CountOf(e)
    ensures var x := IndexOf(e);
            && Edge(x, n - 1) <= Edge(x, n) <= PayloadSize(x) && SIZE_LEN + PayloadSize(x) <= |e|
            && Fields(e, n) == Fields(e, n - 1) + e[SIZE_LEN + Edge(x, n - 1)..SIZE_LEN + Edge(x, n)]
  {
    hide DirectoryOk, BoundariesOk, Boundary, LoadLE, DirectorySize, FieldCount, FieldAtRank, KindOf, TableSize;
    FieldBetweenEdges(e, n - 1);
  }

  // The fields of a well-formed message are its payload: no gap, no overlap.
  lemma {:induction false} FieldsTilePayload(e: Bytes, n: nat)
    requires WellFormed(e) && n <= CountOf(e)
    ensures Edge(IndexOf(e), n) <= PayloadSize(IndexOf(e))
    ensures Fields(e, n) == e[SIZE_LEN..SIZE_LEN + Edge(IndexOf(e), n)]
  {
    hide Fields, Edge, PayloadSize, FieldAtRank, BoundariesOk, Boundary, DirectoryOk, DirectorySize, FieldCount, KindOf,
         TableSize, LoadLE;
    NoFields(e);
    if n > 0 {
      FieldsTilePayload(e, n - 1);
      var x := IndexOf(e);
      FieldsNext(e, n);
      Adjacent(e, SIZE_LEN, SIZE_LEN + Edge(x, n - 1), SIZE_LEN + Edge(x, n));
    }
  }

  lemma FieldBetweenEdges(e: Bytes, r: nat)
    requires WellFormed(e) && r < CountOf(e)
    ensures Edge(IndexOf(e), r) <= Edge(IndexOf(e), r + 1) <= PayloadSize(IndexOf(e))
    ensures FieldAtRank(IndexOf(e), r)
         == Found(OK, true, Slice(SIZE_LEN + Edge(IndexOf(e), r), Edge(IndexOf(e), r + 1) - Edge(IndexOf(e), r)))
  {
    LazyEqualsEager(e);
    assert FieldAtRank(IndexOf(e), r).status == OK;
  }

  lemma Adjacent(e: Bytes, i: nat, j: nat, k: nat)
    requires i <= j <= k <= |e|
    ensures e[i..j] + e[j..k] == e[i..k]
  {
  }

  // ---------- the validators ----------

  // The loop over the blocks of a block directory, the same in both validators.
  method ScanBlocks(dir: Bytes) returns (ok: bool, rank: nat)
    requires Shaped(BLOCKS, dir)
    ensures ok <==> forall b :: 0 <= b < 8 ==> BlockOk(dir, b)
    ensures ok ==> rank == RankBefore(BLOCKS, dir, 8)
  {
    hide Bit, CountBits, EntryAt, Pow2, And;
    var blockMask := dir[|dir| - 1];
    var entry := 0;
    rank := 0;
    NextEntry(dir, 0);
    for block := 0 to 8
      invariant entry == EntryAt(dir, block)
      invariant rank == RankBefore(BLOCKS, dir, block)
      invariant forall b :: 0 <= b < block ==> BlockOk(dir, b)
    {
      TestBit(blockMask, block);
      NextEntry(dir, block);
      if And(blockMask, Pow2(block)) == 0 { continue; }
      EntryFits(dir, block);
      if dir[entry] != rank {
        assert !BlockOk(dir, block);
        return false, 0;
      }
      var mask := LoadLE(dir, entry + 1, 4);
      Pow2Of32();
      TestBit(mask, 31);
      if mask == 0 || (block == 7 && And(mask, 0x8000_0000) != 0) {
        assert !BlockOk(dir, block);
        return false, 0;
      }
      rank := rank + Popcount(mask);
      entry := entry + 5;
    }
    return true, rank;
  }

  method TagsAscend(dir: Bytes, count: nat) returns (ok: bool)
    requires 1 <= count == |dir|
    ensures ok <==> dir[0] != 0 && Increasing(dir)
  {
    if dir[0] == 0 { return false; }
    for i := 1 to count
      invariant Increasing(dir[..i])
    {
      if dir[i] <= dir[i - 1] {
        assert !Increasing(dir);
        return false;
      }
    }
    assert dir[..count] == dir;
    return true;
  }

  // The framing checks, the same in both validators up to their order.
  method ReadFrame(e: Bytes) returns (ok: bool, kind: nat, width: nat, directorySize: nat)
    ensures ok <==> Framed(e)
    ensures ok ==> kind == KindOf(e) && width == WidthOf(e) && directorySize == DirectorySize(kind, e)
  {
    kind, width, directorySize := 0, 0, 0;
    if |e| < SIZE_LEN + 1 { return false, 0, 0, 0; }
    var bodyLength := LoadLE(e, 0, 4);
    if bodyLength != |e| - SIZE_LEN || bodyLength == 0 { return false, 0, 0, 0; }
    var control := e[|e| - 1] as int;
    var widthCode := control % 4;
    kind := control / 4 % 8;
    if control >= 0x20 || widthCode == 3 { return false, 0, 0, 0; }
    width := if widthCode == 0 then 1 else if widthCode == 1 then 2 else 4;
    if TINY1 <= kind <= TINY3 {
      directorySize := kind;
    } else if kind == MASK8 {
      directorySize := 1;
    } else if kind == MASK16 {
      directorySize := 2;
    } else if kind == MASK32 {
      directorySize := 4;
    } else if kind == BLOCKS {
      if bodyLength < 2 { return false, 0, 0, 0; }
      directorySize := 1 + 5 * Popcount(e[|e| - 2]);
    }
    ok := directorySize + 1 <= bodyLength;
  }

  // The directory checks, the same in both validators.
  method ReadDirectory(kind: nat, dir: Bytes) returns (ok: bool, fieldCount: nat)
    requires Shaped(kind, dir) && (kind == BLOCKS ==> dir[|dir| - 1] != 0)
    ensures ok <==> DirectoryOk(kind, dir)
    ensures ok ==> fieldCount == FieldCount(kind, dir) && (fieldCount == 0 <==> kind == EMPTY)
  {
    fieldCount := if kind <= TINY3 then kind else 0;
    if MASK8 <= kind <= MASK32 {
      fieldCount := Popcount(LoadLE(dir, 0, |dir|));
      MaskCount(kind, dir);
    } else if kind == BLOCKS {
      ok, fieldCount := ScanBlocks(dir);
      if !ok { return; }
      SomeTag(kind, dir);
    }
    if fieldCount == 0 && kind != EMPTY { return false, fieldCount; }
    ok := true;
    if TINY1 <= kind <= TINY3 {
      ok := TagsAscend(dir, fieldCount);
    }
  }

  method IndexParse(e: Bytes) returns (status: Status, x: Index)
    ensures status == if WellFormed(e) then OK else MALFORMED
    ensures status == OK ==> x == IndexOf(e)
  {
    x := Index([], 0, 0, 0, 0, 0);
    var framed, kind, width, directorySize := ReadFrame(e);
    if !framed { return MALFORMED, x; }
    var directory := |e| - 1 - directorySize;
    var dir := e[directory..|e| - 1];
    assert dir == DirectoryOf(e);
    if kind == BLOCKS && dir[directorySize - 1] == 0 { return MALFORMED, x; }
    var ok, fieldCount := ReadDirectory(kind, dir);
    if !ok { return MALFORMED, x; }

    var boundaryCount := if fieldCount == 0 then 0 else fieldCount - 1;
    var boundarySize := boundaryCount * width;
    if boundarySize + directorySize + 1 > |e| - SIZE_LEN { return MALFORMED, x; }
    var boundaries := directory - boundarySize;
    var payloadSize := boundaries - SIZE_LEN;
    if fieldCount == 0 && payloadSize != 0 { return MALFORMED, x; }
    x := Index(e, boundaries, directory, fieldCount, width, kind);
    assert Usable(x);
    var ascend := BoundariesAscend(x);
    return if ascend then OK else MALFORMED, x;
  }

  method BoundariesAscend(x: Index) returns (ok: bool)
    requires Usable(x)
    ensures ok <==> BoundariesOk(x)
  {
    hide LoadLE, DirectoryOk, FieldCount, DirectorySize;
    var boundaryCount := if x.fieldCount == 0 then 0 else x.fieldCount - 1;
    var previous := 0;
    for i := 0 to boundaryCount
      invariant previous == if i == 0 then 0 else Boundary(x, i - 1)
      invariant forall k :: 0 <= k < i ==>
        Boundary(x, k) <= PayloadSize(x) && (k > 0 ==> Boundary(x, k - 1) <= Boundary(x, k))
    {
      EntryInTable(x, i);
      var boundary := LoadLE(x.encoded, x.boundaries + i * x.offsetWidth, x.offsetWidth);
      assert boundary == Boundary(x, i);
      if boundary < previous || boundary > PayloadSize(x) { return false; }
      previous := boundary;
    }
    return true;
  }

  lemma MaskCount(kind: nat, dir: Bytes)
    requires Shaped(kind, dir) && MASK8 <= kind <= MASK32
    ensures FieldCount(kind, dir) == Popcount(LoadLE(dir, 0, |dir|))
    ensures LoadLE(dir, 0, |dir|) != 0 <==> Popcount(LoadLE(dir, 0, |dir|)) != 0
  {
    LaterBlocksEmpty(kind, dir, 8);
    if LoadLE(dir, 0, |dir|) > 0 { NonzeroPopcount(LoadLE(dir, 0, |dir|)); }
  }

  lemma {:induction false} LaterBlocksEmpty(kind: nat, dir: Bytes, block: nat)
    requires Shaped(kind, dir) && MASK8 <= kind <= MASK32 && 1 <= block <= 8
    ensures RankBefore(kind, dir, block) == Popcount(LoadLE(dir, 0, |dir|))
  {
    if block > 1 { LaterBlocksEmpty(kind, dir, block - 1); }
  }

  method IndexBegin(e: Bytes) returns (status: Status, x: Index)
    ensures status == if Indexed(e) then OK else MALFORMED
    ensures status == OK ==> x == IndexOf(e)
  {
    x := Index([], 0, 0, 0, 0, 0);
    var framed, kind, width, directorySize := ReadFrame(e);
    if !framed { return MALFORMED, x; }
    var directory := |e| - 1 - directorySize;
    var dir := e[directory..|e| - 1];
    assert dir == DirectoryOf(e);
    if kind == BLOCKS && e[|e| - 2] == 0 { return MALFORMED, x; }
    var ok, fieldCount := ReadDirectory(kind, dir);
    if !ok { return MALFORMED, x; }

    var boundarySize := if fieldCount == 0 then 0 else (fieldCount - 1) * width;
    if fieldCount == 0 {
      if |e| - SIZE_LEN != 1 { return MALFORMED, x; }
    } else if boundarySize + directorySize + 1 > |e| - SIZE_LEN {
      return MALFORMED, x;
    }
    return OK, Index(e, directory - boundarySize, directory, fieldCount, width, kind);
  }

  // ---------- lookup by tag ----------

  lemma DirectoryBytes(x: Index)
    requires Usable(x)
    ensures Framed(x.encoded) && x.directory < |x.encoded|
    ensures Shaped(x.kind, DirectoryOf(x.encoded)) && DirectoryOk(x.kind, DirectoryOf(x.encoded))
    ensures x.encoded[x.directory..|x.encoded| - 1] == DirectoryOf(x.encoded)
    ensures x.fieldCount == FieldCount(x.kind, DirectoryOf(x.encoded))
    ensures x.kind == BLOCKS ==>
      |x.encoded| >= 2 && x.encoded[|x.encoded| - 2] == DirectoryOf(x.encoded)[|DirectoryOf(x.encoded)| - 1]
  {
  }

  predicate Lists(x: Index, tag: nat)
    requires Usable(x)
  {
    1 <= tag <= 255 && HasTag(x.kind, DirectoryOf(x.encoded), tag)
  }

  function Rank(x: Index, tag: nat): nat
    requires Usable(x) && tag <= 256
  {
    |TagsBelow(x.kind, DirectoryOf(x.encoded), tag)|
  }

  method IndexField(x: Index, tag: byte) returns (r: Found)
    requires Usable(x)
    ensures !Lists(x, tag) ==> r == Found(OK, false, NO_FIELD)
    ensures Lists(x, tag) ==> r == FieldAtRank(x, Rank(x, tag)) && Rank(x, tag) < x.fieldCount
  {
    var dir := x.encoded[x.directory..|x.encoded| - 1];
    assert dir == DirectoryOf(x.encoded);
    CountIsTags(x.kind, dir);
    if Lists(x, tag) { RankIsPosition(x.kind, dir, tag, 256); }
    if tag == 0 || x.fieldCount == 0 {
      return Found(OK, false, NO_FIELD);
    }
    var present, rank;
    if x.kind <= TINY3 {
      present, rank := RankInTiny(x.kind, dir, tag);
    } else if x.kind <= MASK32 {
      present, rank := RankInMask(x.kind, dir, tag);
    } else {
      present, rank := RankInBlocks(dir, tag);
    }
    if !present {
      return Found(OK, false, NO_FIELD);
    }
    r := FieldAtRank(x, rank);
  }

  method RankInTiny(kind: nat, dir: Bytes, tag: byte) returns (present: bool, rank: nat)
    requires Shaped(kind, dir) && kind <= TINY3 && DirectoryOk(kind, dir) && tag > 0
    ensures present <==> HasTag(kind, dir, tag)
    ensures present ==> rank == |TagsBelow(kind, dir, tag)|
  {
    TinyTags(kind, dir, tag);
    SmallerMeaning(dir, tag);
    rank := 0;
    while rank < kind
      invariant rank <= kind
      invariant forall i :: 0 <= i < rank ==> dir[i] < tag
    {
      if dir[rank] == tag { return true, rank; }
      if dir[rank] > tag { return false, rank; }
      rank := rank + 1;
    }
    return false, rank;
  }

  method RankInMask(kind: nat, dir: Bytes, tag: byte) returns (present: bool, rank: nat)
    requires Shaped(kind, dir) && MASK8 <= kind <= MASK32 && tag > 0
    ensures present <==> HasTag(kind, dir, tag)
    ensures present ==> rank == |TagsBelow(kind, dir, tag)|
  {
    var maskWidth := Pow2(kind - MASK8);
    assert maskWidth == |dir|;
    var mask := LoadLE(dir, 0, maskWidth);
    if tag as int > maskWidth * 8 {
      MaskHolds(kind, dir, tag);
      return false, 0;
    }
    var bit := Pow2(tag - 1);
    TestBit(mask, tag - 1);
    if And(mask, bit) == 0 { return false, 0; }
    MaskedPopcount(mask, tag - 1);
    RankInBlock(kind, dir, 0, tag - 1);
    return true, Popcount(And(mask, bit - 1));
  }

  method RankInBlocks(dir: Bytes, tag: byte) returns (present: bool, rank: nat)
    requires Shaped(BLOCKS, dir) && DirectoryOk(BLOCKS, dir) && tag > 0
    ensures present <==> HasTag(BLOCKS, dir, tag)
    ensures present ==> rank == |TagsBelow(BLOCKS, dir, tag)|
  {
    hide Bit, CountBits, Popcount, Pow2, And, RankBefore;
    var block := (tag as int - 1) / 32;
    var within := (tag as int - 1) % 32;
    var blockBit := Pow2(block);
    var topMask := dir[|dir| - 1];
    TestBit(topMask, block);
    if And(topMask, blockBit) == 0 {
      ZeroHasNoBits(within);
      return false, 0;
    }
    var entry := 5 * Popcount(And(topMask, blockBit - 1));
    MaskedPopcount(topMask, block);
    EntryFits(dir, block);
    assert BlockOk(dir, block);
    var mask := LoadLE(dir, entry + 1, 4);
    var bit := Pow2(within);
    TestBit(mask, within);
    if And(mask, bit) == 0 { return false, 0; }
    MaskedPopcount(mask, within);
    RankInBlock(BLOCKS, dir, block, within);
    return true, dir[entry] as int + Popcount(And(mask, bit - 1));
  }

  lemma MaskHolds(kind: nat, dir: Bytes, tag: nat)
    requires Shaped(kind, dir) && MASK8 <= kind <= MASK32 && 8 * |dir| < tag <= 256
    ensures !HasTag(kind, dir, tag)
  {
    Pow2Of32();
    var k := (tag - 1) % 32;
    if tag > 32 {
      assert (tag - 1) / 32 > 0;
      ZeroHasNoBits(k);
    } else if Bit(LoadLE(dir, 0, |dir|), k) {
      BitBound(LoadLE(dir, 0, |dir|), k);
      Pow2Mono(8 * |dir|, k);
    }
  }

  // On a well-formed message no lookup is malformed, and the present tags are the listed ones.
  lemma LookupNeverMalformed(e: Bytes, tag: nat)
    requires WellFormed(e) && Lists(IndexOf(e), tag)
    ensures Rank(IndexOf(e), tag) < CountOf(e)
    ensures FieldAtRank(IndexOf(e), Rank(IndexOf(e), tag)).status == OK
  {
    LazyEqualsEager(e);
    CountIsTags(KindOf(e), DirectoryOf(e));
    RankIsPosition(KindOf(e), DirectoryOf(e), tag, 256);
  }

  // Looking up the k-th tag that scanning delivers gives rank k; nothing else is present.
  lemma FastAgreesWithScan(e: Bytes, k: nat, tag: byte)
    requires WellFormed(e) && k < CountOf(e)
    ensures var tags := Tags(KindOf(e), DirectoryOf(e));
            && Increasing(tags) && |tags| == CountOf(e)
            && tags[k] <= 255 && Rank(IndexOf(e), tags[k]) == k && Lists(IndexOf(e), tags[k])
            && (tag in tags <==> Lists(IndexOf(e), tag))
  {
    var kind, dir := KindOf(e), DirectoryOf(e);
    var tags := Tags(kind, dir);
    CountIsTags(kind, dir);
    TagsBelowMeaning(kind, dir, 256);
    assert tags[k] in tags;
    RankIsPosition(kind, dir, tags[k], 256);
    assert tags[Rank(IndexOf(e), tags[k])] == tags[k];
  }

  // ---------- the iterator ----------

  // The bits of mask from skip on are the ones still pending.
  ghost predicate Pending(mask: nat, pending: nat, skip: nat) {
    forall j: nat :: Bit(pending, j) <==> Bit(mask, j) && j >= skip
  }

  lemma {:induction false} NoBitsBetween(mask: nat, lo: nat, hi: nat)
    requires lo <= hi && forall j :: lo <= j < hi ==> !Bit(mask, j)
    ensures CountBits(mask, lo) == CountBits(mask, hi)
  {
    if lo < hi { NoBitsBetween(mask, lo, hi - 1); }
  }

  lemma TakeLowest(mask: u32, pending: nat, skip: nat)
    requires pending != 0 && Pending(mask, pending, skip) && skip <= 32
    ensures Bit(mask, Ctz(pending)) && skip <= Ctz(pending) < 32
    ensures CountBits(mask, Ctz(pending)) == CountBits(mask, skip)
    ensures Pending(mask, And(pending, pending - 1), Ctz(pending) + 1)
  {
    hide Bit, And, CountBits;
    var bit := Ctz(pending);
    NonzeroHasBit(pending);
    assert Bit(mask, bit);
    if bit >= 32 { BitBound(mask, bit); Pow2Of32(); Pow2Mono(32, bit); }
    forall j | skip <= j < bit
      ensures !Bit(mask, j)
    {
      assert !Bit(pending, j);
    }
    NoBitsBetween(mask, skip, bit);
    var rest := And(pending, pending - 1);
    forall j: nat
      ensures Bit(rest, j) <==> Bit(mask, j) && j >= bit + 1
    {
      ClearLowest(pending, j);
      assert Bit(pending, j) <==> Bit(mask, j) && j >= skip;
      if j < bit { assert !Bit(pending, j); }
    }
    assert Pending(mask, rest, bit + 1);
  }

  lemma StartBlock(mask: nat)
    ensures Pending(mask, mask, 0) && CountBits(mask, 0) == 0
  {
  }

  lemma NothingPending(mask: u32, skip: nat)
    requires Pending(mask, 0, skip) && skip <= 32
    ensures CountBits(mask, skip) == Popcount(mask)
  {
    forall j | skip <= j < 32
      ensures !Bit(mask, j)
    {
      ZeroHasNoBits(j);
    }
    NoBitsBetween(mask, skip, 32);
    WholeBlock(mask);
  }

  // The tag of a set bit, and its place in the list of tags.
  lemma TagOfBit(kind: nat, dir: Bytes, b: nat, j: nat)
    requires Shaped(kind, dir) && kind >= MASK8 && DirectoryOk(kind, dir)
    requires b < 8 && j < 32 && Bit(MaskAt(kind, dir, b), j)
    ensures RankBefore(kind, dir, b) + CountBits(MaskAt(kind, dir, b), j) < |Tags(kind, dir)|
    ensures Tags(kind, dir)[RankBefore(kind, dir, b) + CountBits(MaskAt(kind, dir, b), j)] == 32 * b + j + 1
  {
    var tag := 32 * b + j + 1;
    assert HasTag(kind, dir, tag) && tag < 256 by { BitIsTag(kind, dir, b, j); }
    RankInBlock(kind, dir, b, j);
    RankIsPosition(kind, dir, tag, 256);
  }

  lemma BitIsTag(kind: nat, dir: Bytes, b: nat, j: nat)
    requires Shaped(kind, dir) && kind >= MASK8 && DirectoryOk(kind, dir)
    requires b < 8 && j < 32 && Bit(MaskAt(kind, dir, b), j)
    ensures HasTag(kind, dir, 32 * b + j + 1) && 32 * b + j + 1 < 256
  {
    hide Bit, MaskAt, DirectoryOk;
    NoTag256(kind, dir);
    assert (32 * b + j) / 32 == b && (32 * b + j) % 32 == j;
  }

  class FieldIterator {
    const index: Index
    ghost const dir: Bytes  // the directory bytes
    var blockEntry: nat
    var pendingTags: nat
    var rank: nat
    var block: nat
    var tagBase: nat
    ghost var skip: nat     // bits of the current block that are behind the iterator

    // The pending bits are the rest of block b, and rank counts everything before them.
    ghost predicate In(b: nat)
      requires Shaped(index.kind, dir) && index.kind >= MASK8 && b < 8
      reads this
    {
      && skip <= 32 && tagBase == 32 * b
      && Pending(MaskAt(index.kind, dir, b), pendingTags, skip)
      && rank == RankBefore(index.kind, dir, b) + CountBits(MaskAt(index.kind, dir, b), skip)
    }

    ghost predicate Valid()
      reads this
    {
      && Usable(index) && dir == DirectoryOf(index.encoded)
      && rank <= index.fieldCount
      && (MASK8 <= index.kind <= MASK32 ==> In(0))
      && (index.kind == BLOCKS ==>
            && block <= 8
            && blockEntry == EntryAt(dir, block)
            && (block == 0 ==> pendingTags == 0 && rank == 0)
            && (block > 0 ==> In(block - 1)))
    }

    constructor (x: Index)
      requires Usable(x)
      ensures Valid() && index == x && rank == 0
    {
      index := x;
      dir := DirectoryOf(x.encoded);
      blockEntry, rank, block, tagBase := 0, 0, 0, 0;
      skip := 0;
      var pending := 0;
      if MASK8 <= x.kind <= MASK32 {
        var width := Pow2(x.kind - MASK8);
        pending := LoadLE(x.encoded[x.directory..|x.encoded| - 1], 0, width);
      }
      pendingTags := pending;
    }

    lemma MoreInMask()
      requires Valid() && MASK8 <= index.kind <= MASK32 && rank < index.fieldCount
      ensures pendingTags != 0
    {
      if pendingTags == 0 {
        NothingPending(MaskAt(index.kind, dir, 0), skip);
        MaskCount(index.kind, dir);
      }
    }

    // Moves to the next block that the block mask names. That there is one is what makes the
    // malformed answer of the source unreachable here.
    method SkipBlocks(topMask: byte)
      requires Shaped(BLOCKS, dir) && topMask == dir[|dir| - 1]
      requires block <= 8 && rank == RankBefore(BLOCKS, dir, block) < RankBefore(BLOCKS, dir, 8)
      modifies `block
      ensures old(block) <= block < 8 && Bit(topMask, block)
      ensures EntryAt(dir, block) == EntryAt(dir, old(block))
      ensures rank == RankBefore(BLOCKS, dir, block)
    {
      TestBit(topMask, block);
      while block < 8 && And(topMask, Pow2(block)) == 0
        invariant old(block) <= block <= 8
        invariant EntryAt(dir, block) == EntryAt(dir, old(block))
        invariant rank == RankBefore(BLOCKS, dir, block)
      {
        TestBit(topMask, block);
        block := block + 1;
      }
      TestBit(topMask, block);
    }

    method EnterBlock(directory: Bytes)
      requires Shaped(index.kind, dir) && index.kind == BLOCKS && directory == dir
      requires block < 8 && Bit(dir[|dir| - 1], block) && blockEntry == EntryAt(dir, block)
      requires rank == RankBefore(BLOCKS, dir, block)
      modifies `tagBase, `pendingTags, `blockEntry, `block, `skip
      ensures block == old(block) + 1 && blockEntry == EntryAt(dir, block) && In(block - 1)
    {
      hide Bit, CountBits, Pending, EntryAt, Popcount;
      EntryFits(dir, block);
      tagBase := block * 32;
      pendingTags := LoadLE(directory, blockEntry + 1, 4);
      NextEntry(dir, block);
      StartBlock(pendingTags);
      blockEntry := blockEntry + 5;
      block := block + 1;
      skip := 0;
    }

    method LoadBlock()
      requires Valid() && index.kind == BLOCKS && pendingTags == 0 && rank < index.fieldCount
      modifies this
      ensures Valid() && rank == old(rank) && block > old(block)
    {
      hide Bit, Usable, CountBits, Pending, EntryAt, Popcount;
      DirectoryBytes(index);
      NextEntry(dir, 0);
      if block > 0 { NothingPending(MaskAt(BLOCKS, dir, block - 1), skip); }
      SkipBlocks(index.encoded[|index.encoded| - 2]);
      EnterBlock(index.encoded[index.directory..|index.encoded| - 1]);
    }

    // Removes the lowest pending bit and returns its tag.
    method PopTag(ghost b: nat) returns (tag: nat)
      requires Shaped(index.kind, dir) && index.kind >= MASK8 && DirectoryOk(index.kind, dir)
      requires b < 8 && In(b) && pendingTags != 0
      modifies `pendingTags, `rank, `skip
      ensures In(b) && rank == old(rank) + 1
      ensures old(rank) < |Tags(index.kind, dir)| && tag == Tags(index.kind, dir)[old(rank)]
    {
      hide Bit, And, DirectoryOk, Shaped;
      var bit := Ctz(pendingTags);
      TakeLowest(MaskAt(index.kind, dir, b), pendingTags, skip);
      TagOfBit(index.kind, dir, b, bit);
      tag := tagBase + bit + 1;
      pendingTags := And(pendingTags, pendingTags - 1);
      skip := bit + 1;
      rank := rank + 1;
    }

    // Delivers the listed tags one by one in increasing order, and never reports a malformed index.
    method NextTag() returns (status: Status, tag: nat, present: bool)
      requires Valid()
      modifies this
      ensures Valid() && status == OK
      ensures present <==> old(rank) < index.fieldCount
      ensures present ==> rank == old(rank) + 1
                          && old(rank) < |Tags(index.kind, dir)| && tag == Tags(index.kind, dir)[old(rank)]
      ensures !present ==> rank == old(rank)
    {
      hide Bit, DirectoryOk;
      if rank == index.fieldCount {
        return OK, 0, false;
      }
      CountIsTags(index.kind, dir);
      if index.kind <= TINY3 {
        TinyCount(index.kind, dir);
        tag := index.encoded[index.directory + rank] as int;
        rank := rank + 1;
      } else if index.kind <= MASK32 {
        MoreInMask();
        tag := PopTag(0);
      } else {
        while pendingTags == 0
          invariant Valid() && rank == old(rank)
          decreases 8 - block
        {
          LoadBlock();
        }
        tag := PopTag(block - 1);
      }
      present, status := true, OK;
    }

    method Next() returns (status: Status, tag: nat, field: Slice, present: bool)
      requires Valid()
      modifies this
      ensures Valid()
      ensures present <==> old(rank) < index.fieldCount
      ensures present ==> rank == old(rank) + 1
                          && old(rank) < |Tags(index.kind, dir)| && tag == Tags(index.kind, dir)[old(rank)]
                          && FieldAtRank(index, old(rank)) == Found(status, status == OK, field)
      ensures !present ==> status == OK && rank == old(rank) && field == NO_FIELD
    {
      status, tag, present := NextTag();
      if !present { return status, tag, NO_FIELD, present; }
      var found := FieldAtRank(index, rank - 1);
      status, field := found.status, found.field;
    }
  }
}
