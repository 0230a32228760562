/** Indexed messages: length prefix, payload, field boundaries, tag directory, control byte.
    The meaning of an encoded message is given first, as predicates over its bytes; the two validators,
    the tag lookup and the field iterator of the runtime are then proved against it. */
module MessageIndex {
  import opened Bits

  type Bytes = seq<byte>

  datatype Status = OK | MALFORMED | INVALID | OVERFLOW | OOM
  datatype Slice = Slice(start: nat, length: nat)
  datatype Found = Found(status: Status, present: bool, field: Slice)

  const SIZE_LEN: nat := 4

  const EMPTY: nat := 0
  const TINY1: nat := 1
  const TINY3: nat := 3
  const MASK8: nat := 4
  const MASK16: nat := 5
  const MASK32: nat := 6
  const BLOCKS: nat := 7

  const NO_FIELD := Slice(0, 0)

  // ---------- little-endian words ----------

  predicate IsWidth(w: nat) { w == 1 || w == 2 || w == 4 }

  function LoadLE(s: Bytes, pos: nat, width: nat): u32
    requires IsWidth(width) && pos + width <= |s|
  {
    s[pos] as int
    + (if width > 1 then 0x100 * s[pos + 1] as int else 0)
    + (if width > 2 then 0x1_0000 * s[pos + 2] as int + 0x100_0000 * s[pos + 3] as int else 0)
  }

  function StoreLE(v: nat, width: nat): (r: Bytes)
    requires IsWidth(width)
    ensures |r| == width
  {
    [v % 0x100]
    + (if width > 1 then [v / 0x100 % 0x100] else [])
    + (if width > 2 then [v / 0x1_0000 % 0x100, v / 0x100_0000 % 0x100] else [])
  }

  function WidthLimit(width: nat): nat
    requires IsWidth(width)
  {
    if width == 1 then 0x100 else if width == 2 then 0x1_0000 else 0x1_0000_0000
  }

  lemma LoadStore(s: Bytes, pos: nat, v: nat, width: nat)
    requires IsWidth(width) && v < WidthLimit(width)
    requires pos + width <= |s| && s[pos..pos + width] == StoreLE(v, width)
    ensures LoadLE(s, pos, width) == v
  {
    var r := s[pos..pos + width];
    assert s[pos] == r[0];
    if width > 1 { assert s[pos + 1] == r[1]; }
    if width > 2 {
      assert s[pos + 2] == r[2] && s[pos + 3] == r[3];
      FourDigits(v);
    }
  }

  lemma FourDigits(v: nat)
    requires v < 0x1_0000_0000
    ensures v == v % 0x100 + 0x100 * (v / 0x100 % 0x100) + 0x1_0000 * (v / 0x1_0000 % 0x100)
               + 0x100_0000 * (v / 0x100_0000 % 0x100)
  {
    var a := v / 0x100;
    var b := a / 0x100;
    assert v / 0x1_0000 == b;
    assert v / 0x100_0000 == b / 0x100;
  }

  // ---------- the directory and the tag set it denotes ----------

  function DirectorySize(kind: nat, e: Bytes): nat
    requires kind <= BLOCKS && |e| >= 2
  {
    if kind <= TINY3 then kind
    else if kind == MASK8 then 1
    else if kind == MASK16 then 2
    else if kind == MASK32 then 4
    else 1 + 5 * Popcount(e[|e| - 2])
  }

  // dir has the shape its kind prescribes; the last byte of a block directory is its block mask.
  predicate Shaped(kind: nat, dir: Bytes) {
    && kind <= BLOCKS
    && (kind <= TINY3 ==> |dir| == kind)
    && (MASK8 <= kind <= MASK32 ==> |dir| == if kind == MASK8 then 1 else if kind == MASK16 then 2 else 4)
    && (kind == BLOCKS ==> |dir| >= 1 && |dir| == 1 + 5 * Popcount(dir[|dir| - 1]))
  }

  // Offset in dir of the entry of the block-th block, present or not.
  function EntryAt(dir: Bytes, block: nat): nat
    requires |dir| >= 1
  {
    5 * CountBits(dir[|dir| - 1], block)
  }

  lemma EntryFits(dir: Bytes, block: nat)
    requires Shaped(BLOCKS, dir) && block < 8 && Bit(dir[|dir| - 1], block)
    ensures EntryAt(dir, block) + 5 <= |dir| - 1
  {
    var top := dir[|dir| - 1];
    assert Pow2(8) == 256;
    PopcountIsCount(top, 8);
    CountMonotone(top, block, 8);
  }

  lemma NextEntry(dir: Bytes, block: nat)
    requires |dir| >= 1
    ensures EntryAt(dir, 0) == 0
    ensures EntryAt(dir, block + 1) == EntryAt(dir, block) + if Bit(dir[|dir| - 1], block) then 5 else 0
  {
  }

  // The 32 tags of a block, as a mask; the mask kinds only have block 0.
  function MaskAt(kind: nat, dir: Bytes, block: nat): u32
    requires Shaped(kind, dir) && kind >= MASK8 && block < 8
  {
    if kind <= MASK32 then if block == 0 then LoadLE(dir, 0, |dir|) else 0
    else if Bit(dir[|dir| - 1], block) then
      EntryFits(dir, block);
      LoadLE(dir, EntryAt(dir, block) + 1, 4)
    else 0
  }

  predicate HasTag(kind: nat, dir: Bytes, tag: nat)
    requires Shaped(kind, dir) && 1 <= tag <= 256
  {
    if kind <= TINY3 then tag in dir
    else Bit(MaskAt(kind, dir, (tag - 1) / 32), (tag - 1) % 32)
  }

  // The tags smaller than limit, in increasing order: |TagsBelow(t)| is the rank of t.
  function TagsBelow(kind: nat, dir: Bytes, limit: nat): seq<nat>
    requires Shaped(kind, dir) && limit <= 257
  {
    if limit <= 1 then []
    else TagsBelow(kind, dir, limit - 1) + if HasTag(kind, dir, limit - 1) then [limit - 1] else []
  }

  function Tags(kind: nat, dir: Bytes): seq<nat>
    requires Shaped(kind, dir)
  {
    TagsBelow(kind, dir, 256)
  }

  predicate Increasing(s: seq<nat>) {
    forall i, j :: 0 <= i < j < |s| ==> s[i] < s[j]
  }

  lemma {:induction false} TagsBelowMeaning(kind: nat, dir: Bytes, limit: nat)
    requires Shaped(kind, dir) && limit <= 257
    ensures Increasing(TagsBelow(kind, dir, limit))
    ensures forall t :: t in TagsBelow(kind, dir, limit) <==> 1 <= t < limit && HasTag(kind, dir, t)
  {
    if limit > 1 {
      TagsBelowMeaning(kind, dir, limit - 1);
      var smaller := TagsBelow(kind, dir, limit - 1);
      assert forall i :: 0 <= i < |smaller| ==> smaller[i] in smaller;
    }
  }

  // A listed tag stands in the list at the position its rank names.
  lemma {:induction false} RankIsPosition(kind: nat, dir: Bytes, tag: nat, limit: nat)
    requires Shaped(kind, dir) && 1 <= tag < limit <= 257 && HasTag(kind, dir, tag)
    ensures |TagsBelow(kind, dir, tag)| < |TagsBelow(kind, dir, limit)|
    ensures TagsBelow(kind, dir, limit)[|TagsBelow(kind, dir, tag)|] == tag
  {
    if tag + 1 < limit { RankIsPosition(kind, dir, tag, limit - 1); }
  }

  // ---------- directories the validators accept ----------

  // Tags before a block: the value its rank byte must have.
  function RankBefore(kind: nat, dir: Bytes, block: nat): nat
    requires Shaped(kind, dir) && kind >= MASK8 && block <= 8
  {
    if block == 0 then 0 else RankBefore(kind, dir, block - 1) + Popcount(MaskAt(kind, dir, block - 1))
  }

  predicate BlockOk(dir: Bytes, block: nat)
    requires Shaped(BLOCKS, dir) && block < 8
  {
    Bit(dir[|dir| - 1], block) ==>
      (EntryFits(dir, block);
       && dir[EntryAt(dir, block)] == RankBefore(BLOCKS, dir, block)
       && MaskAt(BLOCKS, dir, block) != 0
       && (block == 7 ==> !Bit(MaskAt(BLOCKS, dir, block), 31)))
  }

  predicate DirectoryOk(kind: nat, dir: Bytes)
    requires Shaped(kind, dir)
  {
    && (TINY1 <= kind <= TINY3 ==> dir[0] != 0 && Increasing(dir))
    && (MASK8 <= kind <= MASK32 ==> LoadLE(dir, 0, |dir|) != 0)
    && (kind == BLOCKS ==> dir[|dir| - 1] != 0 && forall b :: 0 <= b < 8 ==> BlockOk(dir, b))
  }

  function FieldCount(kind: nat, dir: Bytes): nat
    requires Shaped(kind, dir)
  {
    if kind <= TINY3 then kind else RankBefore(kind, dir, 8)
  }

  lemma {:induction false} RankInBlock(kind: nat, dir: Bytes, block: nat, j: nat)
    requires Shaped(kind, dir) && kind >= MASK8 && block < 8 && j <= 32
    ensures |TagsBelow(kind, dir, 32 * block + 1 + j)|
         == RankBefore(kind, dir, block) + CountBits(MaskAt(kind, dir, block), j)
    decreases block, j
  {
    hide MaskAt, Bit, LoadLE, Popcount;
    if j > 0 {
      RankInBlock(kind, dir, block, j - 1);
      NextTag(kind, dir, block, j);
    } else if block > 0 {
      RankInBlock(kind, dir, block - 1, 32);
      WholeBlock(MaskAt(kind, dir, block - 1));
    }
  }

  lemma NextTag(kind: nat, dir: Bytes, block: nat, j: nat)
    requires Shaped(kind, dir) && kind >= MASK8 && block < 8 && 0 < j <= 32
    ensures |TagsBelow(kind, dir, 32 * block + 1 + j)|
         == |TagsBelow(kind, dir, 32 * block + j)| + if Bit(MaskAt(kind, dir, block), j - 1) then 1 else 0
  {
    hide MaskAt, Bit, LoadLE, Popcount;
    var tag := 32 * block + j;
    assert (tag - 1) / 32 == block && (tag - 1) % 32 == j - 1;
  }

  lemma WholeBlock(mask: u32)
    ensures CountBits(mask, 32) == Popcount(mask)
  {
    Pow2Of32();
    PopcountIsCount(mask, 32);
  }

  lemma Pow2Of32()
    ensures Pow2(32) == 0x1_0000_0000 && Pow2(31) == 0x8000_0000 && Pow2(16) == 0x1_0000 && Pow2(8) == 0x100
  {
    assert Pow2(8) == 0x100;
    assert Pow2(16) == 0x1_0000;
    assert Pow2(24) == 0x100_0000;
  }

  // The rank of a tag in a sorted list of tags.
  function Smaller(dir: seq<nat>, limit: nat): (n: nat)
    ensures n <= |dir|
  {
    if dir == [] then 0
    else if dir[|dir| - 1] < limit then |dir|
    else Smaller(dir[..|dir| - 1], limit)
  }

  lemma {:induction false} SmallerMeaning(dir: seq<nat>, limit: nat)
    requires Increasing(dir)
    ensures forall i :: 0 <= i < |dir| ==> (dir[i] < limit <==> i < Smaller(dir, limit))
  {
    if dir != [] && dir[|dir| - 1] >= limit { SmallerMeaning(dir[..|dir| - 1], limit); }
  }

  lemma {:induction false} TinyTags(kind: nat, dir: Bytes, limit: nat)
    requires Shaped(kind, dir) && kind <= TINY3 && DirectoryOk(kind, dir) && limit <= 257
    ensures TagsBelow(kind, dir, limit) == dir[..Smaller(dir, limit)]
  {
    SmallerMeaning(dir, limit);
    if limit > 1 {
      TinyTags(kind, dir, limit - 1);
      SmallerMeaning(dir, limit - 1);
      var n := Smaller(dir, limit - 1);
      if limit - 1 in dir {
        var i :| 0 <= i < |dir| && dir[i] == limit - 1;
        assert i == n;
        assert Smaller(dir, limit) == n + 1;
        assert dir[..n + 1] == dir[..n] + [dir[n]];
      } else {
        assert Smaller(dir, limit) == n;
      }
    } else {
      assert forall i :: 0 <= i < |dir| ==> dir[i] >= 1;
      assert Smaller(dir, limit) == 0;
    }
  }

  // The field count both validators compute is the number of tags of the directory.
  lemma CountIsTags(kind: nat, dir: Bytes)
    requires Shaped(kind, dir) && DirectoryOk(kind, dir)
    ensures |Tags(kind, dir)| == FieldCount(kind, dir) <= 255
    ensures FieldCount(kind, dir) == 0 <==> kind == EMPTY
  {
    var tags := Tags(kind, dir);
    TagsBelowMeaning(kind, dir, 256);
    assert forall i :: 0 <= i < |tags| ==> tags[i] in tags;
    SizeBound(tags, 256);
    if kind <= TINY3 { TinyCount(kind, dir); } else { MaskedCount(kind, dir); }
  }

  lemma TinyCount(kind: nat, dir: Bytes)
    requires Shaped(kind, dir) && kind <= TINY3 && DirectoryOk(kind, dir)
    ensures Tags(kind, dir) == dir
  {
    TinyTags(kind, dir, 256);
    SmallerMeaning(dir, 256);
    assert forall i :: 0 <= i < |dir| ==> dir[i] < 256;
    assert Smaller(dir, 256) == |dir|;
  }

  lemma MaskedCount(kind: nat, dir: Bytes)
    requires Shaped(kind, dir) && kind >= MASK8 && DirectoryOk(kind, dir)
    ensures |Tags(kind, dir)| == RankBefore(kind, dir, 8) > 0
  {
    hide MaskAt, DirectoryOk, LoadLE;
    RankInBlock(kind, dir, 7, 31);
    WholeBlock(MaskAt(kind, dir, 7));
    NoTag256(kind, dir);
    SomeTag(kind, dir);
  }

  // Tags are bytes: the bit that would stand for 256 is refused.
  lemma NoTag256(kind: nat, dir: Bytes)
    requires Shaped(kind, dir) && DirectoryOk(kind, dir)
    ensures !HasTag(kind, dir, 256)
  {
    if kind >= MASK8 {
      ZeroHasNoBits(31);
      if kind == BLOCKS { assert BlockOk(dir, 7); }
    }
  }

  lemma {:induction false} SizeBound(s: seq<nat>, limit: nat)
    requires Increasing(s) && (forall i :: 0 <= i < |s| ==> 1 <= s[i] < limit)
    ensures |s| == 0 || |s| <= limit - 1
  {
    if |s| > 0 { SizeBound(s[..|s| - 1], s[|s| - 1]); }
  }

  lemma SomeTag(kind: nat, dir: Bytes)
    requires Shaped(kind, dir) && DirectoryOk(kind, dir) && kind >= MASK8
    ensures RankBefore(kind, dir, 8) > 0
  {
    var b := if kind <= MASK32 then 0 else Ctz(dir[|dir| - 1]);
    if kind == BLOCKS {
      NonzeroHasBit(dir[|dir| - 1]);
      assert Bit(dir[|dir| - 1], b);
      assert b < 8 by { if b >= 8 { BitBound(dir[|dir| - 1], b); Pow2Mono(8, b); } }
      assert BlockOk(dir, b);
    }
    NonzeroPopcount(MaskAt(kind, dir, b));
    RankMono(kind, dir, b + 1, 8);
  }

  lemma {:induction false} NonzeroPopcount(m: nat)
    requires m > 0
    ensures Popcount(m) > 0
  {
    if m % 2 == 0 { NonzeroPopcount(m / 2); }
  }

  lemma {:induction false} Pow2Mono(i: nat, k: nat)
    requires i <= k
    ensures Pow2(i) <= Pow2(k)
  {
    if i < k { Pow2Mono(i, k - 1); }
  }

  lemma {:induction false} RankMono(kind: nat, dir: Bytes, b: nat, c: nat)
    requires Shaped(kind, dir) && kind >= MASK8 && b <= c <= 8
    ensures RankBefore(kind, dir, b) <= RankBefore(kind, dir, c)
  {
    if b < c { RankMono(kind, dir, b, c - 1); }
  }
}
