/** Writing indexed messages: the layout of the tag directory, the bytes of a finished message, the writer
    that produces them in its buffer, and the theorem that the reader undoes the writer. */
module MessageWriter {
  import opened Bits
  import opened MessageIndex
  import opened MessageReader

  const SIZE_MAX: nat := U64_MAX

  datatype Layout = Layout(kind: nat, size: nat, blockMask: nat)

  predicate TagsValid(tags: Bytes) {
    Increasing(tags) && (tags != [] ==> tags[0] != 0)
  }

  // ---------- masks of a tag list ----------

  // The tags of one block of 32, as a mask.
  function TagMask(tags: Bytes, block: nat): nat
    requires forall i :: 0 <= i < |tags| ==> tags[i] >= 1
  {
    if tags == [] then 0
    else
      var n := |tags| - 1;
      var tag := tags[n] as int;
      if (tag - 1) / 32 == block then Or(TagMask(tags[..n], block), Pow2((tag - 1) % 32))
      else TagMask(tags[..n], block)
  }

  // The blocks that hold a tag, as a mask.
  function TopMask(tags: Bytes): nat
    requires forall i :: 0 <= i < |tags| ==> tags[i] >= 1
  {
    if tags == [] then 0
    else Or(TopMask(tags[..|tags| - 1]), Pow2((tags[|tags| - 1] as int - 1) / 32))
  }

  predicate Positive(tags: Bytes) { forall i :: 0 <= i < |tags| ==> tags[i] >= 1 }

  lemma {:induction false} TagMaskBits(tags: Bytes, block: nat, j: nat)
    requires Positive(tags) && block < 8
    ensures TagMask(tags, block) < 0x1_0000_0000
    ensures Bit(TagMask(tags, block), j) <==> j < 32 && 32 * block + j + 1 in tags
  {
    hide Bit, Or, Pow2;
    Pow2Of32();
    if tags == [] {
      ZeroHasNoBits(j);
    } else {
      var n := |tags| - 1;
      var tag := tags[n] as int;
      TagMaskBits(tags[..n], block, j);
      var k := (tag - 1) % 32;
      OrBits(TagMask(tags[..n], block), Pow2(k), j);
      Pow2Bit(k, j);
      Pow2Less(k, 32);
      OrBound(TagMask(tags[..n], block), Pow2(k), 32);
      assert tags == tags[..n] + [tags[n]];
    }
  }

  lemma {:induction false} Pow2Less(i: nat, k: nat)
    requires i < k
    ensures Pow2(i) < Pow2(k)
  {
    if i < k - 1 { Pow2Less(i, k - 1); }
  }

  lemma {:induction false} TopMaskBits(tags: Bytes, b: nat)
    requires Positive(tags)
    ensures TopMask(tags) < 0x100
    ensures Bit(TopMask(tags), b) <==> exists i :: 0 <= i < |tags| && (tags[i] as int - 1) / 32 == b
  {
    hide Bit, Or, Pow2;
    Pow2Of32();
    if tags == [] {
      ZeroHasNoBits(b);
    } else {
      var n := |tags| - 1;
      var k := (tags[n] as int - 1) / 32;
      var rest := tags[..n];
      TopMaskBits(rest, b);
      OrBits(TopMask(rest), Pow2(k), b);
      Pow2Bit(k, b);
      Pow2Less(k, 8);
      OrBound(TopMask(rest), Pow2(k), 8);
      assert forall i :: 0 <= i < n ==> rest[i] == tags[i];
      if exists i :: 0 <= i < |tags| && (tags[i] as int - 1) / 32 == b {
        var i :| 0 <= i < |tags| && (tags[i] as int - 1) / 32 == b;
        if i < n { assert rest[i] == tags[i]; }
      }
    }
  }

  // ---------- the directory bytes ----------

  function LayoutOf(tags: Bytes): Layout
    requires TagsValid(tags)
  {
    if tags == [] then Layout(EMPTY, 0, 0)
    else
      var top := TopMask(tags);
      var size := 1 + 5 * Popcount(top);
      var max := tags[|tags| - 1];
      var masked :=
        if max <= 8 && 1 <= size then Layout(MASK8, 1, top)
        else if max <= 16 && 2 <= size then Layout(MASK16, 2, top)
        else if max <= 32 && 4 <= size then Layout(MASK32, 4, top)
        else Layout(BLOCKS, size, top);
      if |tags| <= 3 && |tags| < masked.size then Layout(|tags|, |tags|, top) else masked
  }

  // Tags before a block: the rank byte of its entry.
  function TagsBefore(tags: Bytes, block: nat): nat
    requires Positive(tags)
  {
    if block == 0 then 0 else TagsBefore(tags, block - 1) + Popcount(TagMask(tags, block - 1))
  }

  function BlockEntry(tags: Bytes, block: nat): (r: Bytes)
    requires Positive(tags)
    ensures |r| == 5
  {
    [TagsBefore(tags, block) % 0x100] + StoreLE(TagMask(tags, block), 4)
  }

  // The entries of the blocks below n.
  function BlockEntries(tags: Bytes, n: nat): Bytes
    requires Positive(tags)
  {
    if n == 0 then []
    else BlockEntries(tags, n - 1) + if Bit(TopMask(tags), n - 1) then BlockEntry(tags, n - 1) else []
  }

  function Directory(tags: Bytes): Bytes
    requires TagsValid(tags)
  {
    var layout := LayoutOf(tags);
    if layout.kind <= TINY3 then tags
    else if layout.kind <= MASK32 then StoreLE(TagMask(tags, 0), layout.size)
    else TopMaskBits(tags, 0); BlockEntries(tags, 8) + [TopMask(tags)]
  }

  // A directory that the validators accept and that lists exactly these tags.
  predicate Denotes(kind: nat, dir: Bytes, tags: Bytes) {
    && Shaped(kind, dir) && DirectoryOk(kind, dir)
    && forall t :: 1 <= t <= 256 ==> (HasTag(kind, dir, t) <==> t in tags)
  }

  lemma {:induction false} EntriesShape(tags: Bytes, n: nat)
    requires Positive(tags)
    ensures |BlockEntries(tags, n)| == 5 * CountBits(TopMask(tags), n)
  {
    if n > 0 { EntriesShape(tags, n - 1); }
  }

  // Every entry stands where the reader looks for it.
  lemma {:induction false} EntryInPlace(tags: Bytes, b: nat, n: nat)
    requires Positive(tags) && b < n && Bit(TopMask(tags), b)
    ensures 5 * CountBits(TopMask(tags), b) + 5 <= |BlockEntries(tags, n)|
    ensures BlockEntries(tags, n)[5 * CountBits(TopMask(tags), b)..5 * CountBits(TopMask(tags), b) + 5]
         == BlockEntry(tags, b)
  {
    hide Bit, StoreLE, BlockEntry;
    EntriesShape(tags, n - 1);
    if b < n - 1 {
      EntryInPlace(tags, b, n - 1);
    }
  }

  lemma BlocksShaped(tags: Bytes)
    requires Positive(tags)
    ensures TopMask(tags) < 0x100
    ensures Shaped(BLOCKS, BlockEntries(tags, 8) + [TopMask(tags)])
  {
    TopMaskBits(tags, 0);
    EntriesShape(tags, 8);
    Pow2Of32();
    PopcountIsCount(TopMask(tags), 8);
  }

  lemma BlockMaskRead(tags: Bytes, b: nat)
    requires Positive(tags) && b < 8
    ensures TopMask(tags) < 0x100
    ensures var dir := BlockEntries(tags, 8) + [TopMask(tags)];
            && Shaped(BLOCKS, dir)
            && MaskAt(BLOCKS, dir, b) == TagMask(tags, b)
            && (Bit(TopMask(tags), b) <==> TagMask(tags, b) != 0)
            && (Bit(TopMask(tags), b) ==>
                  EntryAt(dir, b) + 5 < |dir| && dir[EntryAt(dir, b)] as int == TagsBefore(tags, b) % 0x100)
  {
    hide Bit, Popcount, TagMask, TopMask, CountBits, Shaped, Pow2, BlockEntries, LoadLE, StoreLE, BlockEntry;
    BlocksShaped(tags);
    var dir := BlockEntries(tags, 8) + [TopMask(tags)];
    TopBitIsMask(tags, b);
    TagMaskBits(tags, b, 0);
    if Bit(TopMask(tags), b) {
      EntryFits(dir, b);
      EntryInPlace(tags, b, 8);
      EntryRead(dir, EntryAt(dir, b), tags, b);
    }
  }

  lemma EntryRead(dir: Bytes, at: nat, tags: Bytes, b: nat)
    requires Positive(tags) && TagMask(tags, b) < 0x1_0000_0000
    requires at + 5 <= |dir| && dir[at..at + 5] == BlockEntry(tags, b)
    ensures dir[at] as int == TagsBefore(tags, b) % 0x100
    ensures LoadLE(dir, at + 1, 4) == TagMask(tags, b)
  {
    hide TagMask, TagsBefore, LoadLE, StoreLE;
    assert dir[at] == dir[at..at + 5][0];
    assert dir[at + 1..at + 5] == dir[at..at + 5][1..] == StoreLE(TagMask(tags, b), 4);
    LoadStore(dir, at + 1, TagMask(tags, b), 4);
  }

  lemma TopBitIsMask(tags: Bytes, b: nat)
    requires Positive(tags) && b < 8
    ensures Bit(TopMask(tags), b) <==> TagMask(tags, b) != 0
  {
    hide Bit, TagMask, TopMask;
    TopMaskBits(tags, b);
    if TagMask(tags, b) != 0 {
      NonzeroHasBit(TagMask(tags, b));
      var j := Ctz(TagMask(tags, b));
      TagMaskBits(tags, b, j);
      var i :| 0 <= i < |tags| && tags[i] as int == 32 * b + j + 1;
    }
    if i :| 0 <= i < |tags| && (tags[i] as int - 1) / 32 == b {
      var j := (tags[i] as int - 1) % 32;
      TagMaskBits(tags, b, j);
      assert tags[i] as int == 32 * b + j + 1;
      ZeroHasNoBits(j);
    }
  }

  lemma {:induction false} RanksMatch(tags: Bytes, b: nat)
    requires Positive(tags) && b <= 8 && TopMask(tags) < 0x100
    requires Shaped(BLOCKS, BlockEntries(tags, 8) + [TopMask(tags)])
    ensures RankBefore(BLOCKS, BlockEntries(tags, 8) + [TopMask(tags)], b) == TagsBefore(tags, b)
  {
    hide Bit, TagMask, TopMask, MaskAt, BlockEntries;
    if b > 0 {
      RanksMatch(tags, b - 1);
      BlockMaskRead(tags, b - 1);
    }
  }

  // What a block directory lists, read off its masks.
  lemma BlocksList(tags: Bytes, t: nat)
    requires Positive(tags) && 1 <= t <= 256 && TopMask(tags) < 0x100
    requires Shaped(BLOCKS, BlockEntries(tags, 8) + [TopMask(tags)])
    ensures HasTag(BLOCKS, BlockEntries(tags, 8) + [TopMask(tags)], t) <==> t in tags
  {
    hide Bit, TagMask, TopMask, MaskAt, BlockEntries;
    var b, j := (t - 1) / 32, (t - 1) % 32;
    BlockMaskRead(tags, b);
    TagMaskBits(tags, b, j);
    assert 32 * b + j + 1 == t;
  }

  // All ranks fit the byte that stores them.
  lemma RanksFit(tags: Bytes, b: nat)
    requires Positive(tags) && b <= 8
    ensures TagsBefore(tags, b) <= 0xFF
  {
    hide Bit, TagMask, TopMask, MaskAt, BlockEntries, Shaped, HasTag;
    BlocksShaped(tags);
    var dir := BlockEntries(tags, 8) + [TopMask(tags)];
    RanksMatch(tags, b);
    RankMono(BLOCKS, dir, b, 8);
    RankInBlock(BLOCKS, dir, 7, 32);
    WholeBlock(MaskAt(BLOCKS, dir, 7));
    var listed := TagsBelow(BLOCKS, dir, 257);
    TagsBelowMeaning(BLOCKS, dir, 257);
    forall i | 0 <= i < |listed|
      ensures 1 <= listed[i] < 256
    {
      assert listed[i] in listed;
      BlocksList(tags, listed[i]);
    }
    SizeBound(listed, 256);
  }

  lemma BlocksDenote(tags: Bytes)
    requires TagsValid(tags) && tags != []
    ensures TopMask(tags) < 0x100
    ensures Denotes(BLOCKS, BlockEntries(tags, 8) + [TopMask(tags)], tags)
  {
    hide Bit, TagMask, TopMask, MaskAt, BlockEntries, HasTag, Shaped, TagsBefore, RankBefore, Popcount, CountBits;
    BlocksShaped(tags);
    var dir := BlockEntries(tags, 8) + [TopMask(tags)];
    forall t | 1 <= t <= 256
      ensures HasTag(BLOCKS, dir, t) <==> t in tags
    {
      BlocksList(tags, t);
    }
    forall b | 0 <= b < 8
      ensures BlockOk(dir, b)
    {
      WrittenBlockOk(tags, b);
    }
    TopMaskNonzero(tags);
  }

  lemma WrittenBlockOk(tags: Bytes, b: nat)
    requires Positive(tags) && b < 8 && TopMask(tags) < 0x100
    requires Shaped(BLOCKS, BlockEntries(tags, 8) + [TopMask(tags)])
    ensures BlockOk(BlockEntries(tags, 8) + [TopMask(tags)], b)
  {
    hide Bit, TagMask, TopMask, MaskAt, BlockEntries, Shaped, TagsBefore, RankBefore, Popcount, CountBits;
    BlockMaskRead(tags, b);
    RanksMatch(tags, b);
    RanksFit(tags, b);
    TagMaskBits(tags, 7, 31);
  }

  lemma TopMaskNonzero(tags: Bytes)
    requires Positive(tags) && tags != []
    ensures TopMask(tags) != 0
  {
    hide Bit, TopMask;
    var b := (tags[0] as int - 1) / 32;
    TopMaskBits(tags, b);
    ZeroHasNoBits(b);
  }

  lemma MaskLists(kind: nat, dir: Bytes, tags: Bytes, t: nat)
    requires TagsValid(tags) && Shaped(kind, dir) && MASK8 <= kind <= MASK32
    requires LoadLE(dir, 0, |dir|) == TagMask(tags, 0)
    requires tags != [] && tags[|tags| - 1] <= 32 && 1 <= t <= 256
    ensures HasTag(kind, dir, t) <==> t in tags
  {
    hide Bit, TagMask, LoadLE, Shaped;
    if t <= 32 {
      TagMaskBits(tags, 0, t - 1);
    } else {
      ZeroHasNoBits((t - 1) % 32);
    }
  }

  lemma MaskDenotes(kind: nat, tags: Bytes, width: nat)
    requires TagsValid(tags) && tags != [] && tags[|tags| - 1] as int <= 8 * width
    requires (kind == MASK8 && width == 1) || (kind == MASK16 && width == 2) || (kind == MASK32 && width == 4)
    ensures Denotes(kind, StoreLE(TagMask(tags, 0), width), tags)
  {
    hide Bit, TagMask, StoreLE, LoadLE, Popcount, RankBefore;
    var mask := TagMask(tags, 0);
    var dir := StoreLE(mask, width);
    forall j: nat | j >= 8 * width
      ensures !Bit(mask, j)
    {
      TagMaskBits(tags, 0, j);
    }
    BoundFromBits(mask, 8 * width);
    Pow2Of32();
    LoadStore(dir, 0, mask, width);
    forall t | 1 <= t <= 256
      ensures HasTag(kind, dir, t) <==> t in tags
    {
      MaskLists(kind, dir, tags, t);
    }
    TagMaskBits(tags, 0, tags[0] - 1);
    ZeroHasNoBits(tags[0] - 1);
  }

  // The directory that is written is accepted and lists the given tags.
  lemma DirectoryDenotes(tags: Bytes)
    requires TagsValid(tags)
    ensures Denotes(LayoutOf(tags).kind, Directory(tags), tags)
    ensures |Directory(tags)| == LayoutOf(tags).size
  {
    hide Bit, TagMask, TopMask, BlockEntries, StoreLE, Popcount, MaskAt;
    var layout := LayoutOf(tags);
    if layout.kind <= TINY3 {
    } else if layout.kind <= MASK32 {
      MaskDenotes(layout.kind, tags, layout.size);
    } else {
      BlocksDenote(tags);
    }
  }

  // ---------- the layout is the smallest possible ----------

  lemma {:induction false} SameTags(a: seq<nat>, b: seq<nat>)
    requires Increasing(a) && Increasing(b)
    requires forall t :: t in a <==> t in b
    ensures a == b
  {
    if a == [] {
      assert forall i :: 0 <= i < |b| ==> b[i] in a;
    } else {
      assert a[|a| - 1] in b;
      var m, n := |a| - 1, |b| - 1;
      assert b[n] in a;
      assert a[m] == b[n] by {
        var i :| 0 <= i < |a| && a[i] == b[n];
        var j :| 0 <= j < |b| && b[j] == a[m];
      }
      forall t
        ensures t in a[..m] <==> t in b[..n]
      {
        if t in a[..m] { assert t in a && t != a[m]; }
        if t in b[..n] { assert t in b && t != b[n]; }
        assert t in b && t != b[n] ==> t in b[..n];
        assert t in a && t != a[m] ==> t in a[..m];
      }
      SameTags(a[..m], b[..n]);
    }
  }

  // The reader's tag list is the list that was written.
  lemma DenotedTags(kind: nat, dir: Bytes, tags: Bytes)
    requires TagsValid(tags) && Denotes(kind, dir, tags)
    ensures Tags(kind, dir) == tags && FieldCount(kind, dir) == |tags|
  {
    hide HasTag, Shaped, DirectoryOk, FieldCount;
    TagsBelowMeaning(kind, dir, 256);
    assert forall t :: t in Tags(kind, dir) <==> t in tags;
    SameTags(Tags(kind, dir), tags);
    CountIsTags(kind, dir);
  }

  lemma {:induction false} MoreBits(a: nat, b: nat, k: nat)
    requires forall j :: 0 <= j < k && Bit(a, j) ==> Bit(b, j)
    ensures CountBits(a, k) <= CountBits(b, k)
  {
    if k > 0 { MoreBits(a, b, k - 1); }
  }

  lemma BlocksNotSmaller(dir: Bytes, tags: Bytes)
    requires TagsValid(tags) && Denotes(BLOCKS, dir, tags)
    ensures |dir| >= 1 + 5 * Popcount(TopMask(tags))
  {
    hide Bit, TopMask;
    var top := dir[|dir| - 1];
    forall b | 0 <= b < 8 && Bit(TopMask(tags), b)
      ensures Bit(top, b)
    {
      TopMaskBits(tags, b);
      var i :| 0 <= i < |tags| && (tags[i] as int - 1) / 32 == b;
      assert HasTag(BLOCKS, dir, tags[i]);
      ZeroHasNoBits((tags[i] as int - 1) % 32);
    }
    MoreBits(TopMask(tags), top, 8);
    TopMaskBits(tags, 0);
    Pow2Of32();
    PopcountIsCount(top, 8);
    PopcountIsCount(TopMask(tags), 8);
  }

  // No directory of any kind that lists these tags is shorter than the one that is written.
  lemma LayoutIsMinimal(kind: nat, dir: Bytes, tags: Bytes)
    requires TagsValid(tags) && Denotes(kind, dir, tags)
    ensures |dir| >= LayoutOf(tags).size
  {
    hide Bit, TopMask, HasTag, DirectoryOk, Popcount;
    DenotedTags(kind, dir, tags);
    CountIsTags(kind, dir);
    if tags != [] {
      var max := tags[|tags| - 1];
      if kind == BLOCKS {
        BlocksNotSmaller(dir, tags);
      } else if kind >= MASK8 {
        if 8 * |dir| < max as int { MaskHolds(kind, dir, max); }
      }
      TopMaskNonzero(tags);
      NonzeroPopcount(TopMask(tags));
    }
  }

  // ---------- the bytes of a finished message ----------

  function WidthFor(payloadSize: nat): nat {
    if payloadSize <= 0xFF then 1 else if payloadSize <= 0xFFFF then 2 else 4
  }

  // The boundary table: the offsets of the fields of rank 1..n-1.
  function Table(offsets: seq<nat>, n: nat, width: nat): Bytes
    requires IsWidth(width) && n <= |offsets|
  {
    if n <= 1 then [] else Table(offsets, n - 1, width) + StoreLE(offsets[n - 1], width)
  }

  function MetadataSize(payloadSize: nat, tags: Bytes): nat
    requires TagsValid(tags)
  {
    1 + LayoutOf(tags).size + (if tags == [] then 0 else |tags| - 1) * WidthFor(payloadSize)
  }

  predicate OffsetsValid(payloadSize: nat, tags: Bytes, offsets: seq<nat>) {
    && |offsets| == |tags|
    && (tags == [] ==> payloadSize == 0)
    && (tags != [] ==> offsets[0] == 0)
    && (forall i :: 0 <= i < |offsets| ==> offsets[i] <= payloadSize)
    && (forall i :: 0 < i < |offsets| ==> offsets[i - 1] <= offsets[i])
  }

  predicate Fits(payloadSize: nat, tags: Bytes)
    requires TagsValid(tags)
  {
    payloadSize <= U32_MAX && payloadSize + MetadataSize(payloadSize, tags) <= U32_MAX
  }

  function ControlFor(payloadSize: nat, tags: Bytes): byte
    requires TagsValid(tags)
  {
    DirectoryDenotes(tags);
    var width := WidthFor(payloadSize);
    4 * LayoutOf(tags).kind + if width == 1 then 0 else if width == 2 then 1 else 2
  }

  function Metadata(payloadSize: nat, tags: Bytes, offsets: seq<nat>): Bytes
    requires TagsValid(tags) && OffsetsValid(payloadSize, tags, offsets)
  {
    Table(offsets, |tags|, WidthFor(payloadSize)) + Directory(tags) + [ControlFor(payloadSize, tags)]
  }

  function Encode(payload: Bytes, tags: Bytes, offsets: seq<nat>): Bytes
    requires TagsValid(tags) && OffsetsValid(|payload|, tags, offsets) && Fits(|payload|, tags)
  {
    var body := payload + Metadata(|payload|, tags, offsets);
    StoreLE(|body|, SIZE_LEN) + body
  }

  // bebop_indexed_message_size
  function MessageSize(payloadSize: nat, tags: Bytes): nat {
    if !TagsValid(tags) || payloadSize > U32_MAX then SIZE_MAX
    else
      var metadataSize := MetadataSize(payloadSize, tags);
      if payloadSize + metadataSize > U32_MAX || payloadSize + SIZE_LEN + metadataSize > SIZE_MAX then SIZE_MAX
      else SIZE_LEN + payloadSize + metadataSize
  }

  lemma {:induction false} TableLength(offsets: seq<nat>, n: nat, width: nat)
    requires IsWidth(width) && n <= |offsets|
    ensures |Table(offsets, n, width)| == if n <= 1 then 0 else (n - 1) * width
  {
    if n > 1 {
      TableLength(offsets, n - 1, width);
      Times(n - 2, width);
    }
  }

  lemma Times(n: nat, width: nat)
    ensures n * width + width == (n + 1) * width
  {
  }

  lemma MetadataLength(payloadSize: nat, tags: Bytes, offsets: seq<nat>)
    requires TagsValid(tags) && OffsetsValid(payloadSize, tags, offsets)
    ensures |Metadata(payloadSize, tags, offsets)| == MetadataSize(payloadSize, tags)
  {
    hide LayoutOf, Directory, Table;
    DirectoryDenotes(tags);
    TableLength(offsets, |tags|, WidthFor(payloadSize));
  }

  // The predicted size is the size of the message, and the sentinel is returned for no message.
  lemma SizeIsExact(payload: Bytes, tags: Bytes, offsets: seq<nat>)
    requires TagsValid(tags) && OffsetsValid(|payload|, tags, offsets)
    ensures Fits(|payload|, tags) <==> MessageSize(|payload|, tags) != SIZE_MAX
    ensures Fits(|payload|, tags) ==> |Encode(payload, tags, offsets)| == MessageSize(|payload|, tags)
  {
    MetadataLength(|payload|, tags, offsets);
  }

  // ---------- the reader undoes the writer ----------

  // Entry i of the table is the offset of the field of rank i + 1.
  lemma {:induction false} TableEntry(offsets: seq<nat>, n: nat, width: nat, i: nat)
    requires IsWidth(width) && i + 1 < n <= |offsets|
    ensures i * width + width <= |Table(offsets, n, width)|
    ensures Table(offsets, n, width)[i * width..i * width + width] == StoreLE(offsets[i + 1], width)
  {
    hide StoreLE;
    TableLength(offsets, n - 1, width);
    var rest, entry := Table(offsets, n - 1, width), StoreLE(offsets[n - 1], width);
    var from := i * width;
    if i + 2 < n {
      TableEntry(offsets, n - 1, width, i);
      FrontOf(rest, entry, from, from + width);
    } else {
      assert |rest| == from;
      BackOf(rest, entry);
    }
  }

  lemma FrontOf(a: Bytes, b: Bytes, from: nat, to: nat)
    requires from <= to <= |a|
    ensures (a + b)[from..to] == a[from..to]
  {
  }

  lemma BackOf(a: Bytes, b: Bytes)
    ensures (a + b)[|a|..|a| + |b|] == b
  {
  }

  // e is laid out as a message with this payload, these tags and these field offsets.
  predicate Carries(e: Bytes, payload: Bytes, tags: Bytes, offsets: seq<nat>) {
    && TagsValid(tags) && OffsetsValid(|payload|, tags, offsets)
    && Framed(e) && KindOf(e) == LayoutOf(tags).kind && DirectoryOf(e) == Directory(tags)
    && WidthOf(e) == WidthFor(|payload|)
    && |e| == SIZE_LEN + |payload| + MetadataSize(|payload|, tags)
    && e[SIZE_LEN..SIZE_LEN + |payload|] == payload
    && |Table(offsets, |tags|, WidthFor(|payload|))| <= |e| - SIZE_LEN - |payload|
    && e[SIZE_LEN + |payload|..SIZE_LEN + |payload| + |Table(offsets, |tags|, WidthFor(|payload|))|]
       == Table(offsets, |tags|, WidthFor(|payload|))
  }

  lemma Slices(length: Bytes, payload: Bytes, table: Bytes, dir: Bytes, control: byte)
    requires |length| == SIZE_LEN
    ensures var e := length + (payload + (table + dir + [control]));
            && e[..SIZE_LEN] == length
            && e[SIZE_LEN..SIZE_LEN + |payload|] == payload
            && e[SIZE_LEN + |payload|..SIZE_LEN + |payload| + |table|] == table
            && e[|e| - 1 - |dir|..|e| - 1] == dir
            && e[|e| - 1] == control
            && (|dir| > 0 ==> e[|e| - 2] == dir[|dir| - 1])
  {
  }

  lemma EncodeCarries(payload: Bytes, tags: Bytes, offsets: seq<nat>)
    requires TagsValid(tags) && OffsetsValid(|payload|, tags, offsets) && Fits(|payload|, tags)
    ensures Carries(Encode(payload, tags, offsets), payload, tags, offsets)
  {
    hide LayoutOf, Directory, Table, LoadLE, StoreLE, TagsValid, DirectoryOk, HasTag;
    var e := Encode(payload, tags, offsets);
    var length := StoreLE(|e| - SIZE_LEN, SIZE_LEN);
    var table := Table(offsets, |tags|, WidthFor(|payload|));
    DirectoryDenotes(tags);
    MetadataLength(|payload|, tags, offsets);
    Slices(length, payload, table, Directory(tags), ControlFor(|payload|, tags));
    LoadStore(e, 0, |e| - SIZE_LEN, SIZE_LEN);
    FramedBytes(e, LayoutOf(tags).kind, Directory(tags), ControlFor(|payload|, tags));
  }

  lemma FramedBytes(e: Bytes, kind: nat, dir: Bytes, control: byte)
    requires |e| >= SIZE_LEN + 1 + |dir| && Shaped(kind, dir)
    requires LoadLE(e, 0, 4) == |e| - SIZE_LEN
    requires control as int / 4 == kind && control as int % 4 != 3 && e[|e| - 1] == control
    requires |dir| > 0 ==> e[|e| - 2] == dir[|dir| - 1]
    requires e[|e| - 1 - |dir|..|e| - 1] == dir
    ensures Framed(e) && KindOf(e) == kind && DirectoryOf(e) == dir
  {
    hide LoadLE, Popcount;
  }

  lemma CarriedIndex(e: Bytes, payload: Bytes, tags: Bytes, offsets: seq<nat>)
    requires Carries(e, payload, tags, offsets)
    ensures Indexed(e) && CountOf(e) == |tags| && Tags(KindOf(e), DirectoryOf(e)) == tags
    ensures IndexOf(e).boundaries == SIZE_LEN + |payload| && IndexOf(e).offsetWidth == WidthFor(|payload|)
  {
    hide LayoutOf, Directory, Table, LoadLE, FieldCount, HasTag, DirectoryOk, Shaped, TagsValid;
    if tags == [] { NothingToList(); }
    DirectoryDenotes(tags);
    DenotedTags(KindOf(e), DirectoryOf(e), tags);
    DirectorySized(e);
    assert TableSize(e) == (if tags == [] then 0 else |tags| - 1) * WidthFor(|payload|);
  }

  lemma NothingToList()
    ensures LayoutOf([]).size == 0
  {
  }

  lemma DirectorySized(e: Bytes)
    requires Framed(e)
    ensures |DirectoryOf(e)| == DirectorySize(KindOf(e), e)
  {
  }

  lemma SliceOfSlice(s: Bytes, lo: nat, hi: nat, from: nat, to: nat)
    requires lo <= hi <= |s| && from <= to <= hi - lo
    ensures s[lo..hi][from..to] == s[lo + from..lo + to]
  {
    assert forall k :: 0 <= k < to - from ==> s[lo..hi][from..to][k] == s[lo + from..lo + to][k];
  }

  lemma TableRead(e: Bytes, at: nat, offsets: seq<nat>, n: nat, width: nat, i: nat)
    requires IsWidth(width) && i + 1 < n <= |offsets| && offsets[i + 1] < WidthLimit(width)
    requires at + |Table(offsets, n, width)| <= |e|
    requires e[at..at + |Table(offsets, n, width)|] == Table(offsets, n, width)
    ensures at + i * width + width <= |e|
    ensures LoadLE(e, at + i * width, width) == offsets[i + 1]
  {
    hide StoreLE, LoadLE, Table;
    TableEntry(offsets, n, width, i);
    var table := Table(offsets, n, width);
    var from := i * width;
    SliceOfSlice(e, at, at + |table|, from, from + width);
    LoadStore(e, at + from, offsets[i + 1], width);
  }

  lemma CarriedBoundary(e: Bytes, payload: Bytes, tags: Bytes, offsets: seq<nat>, i: nat)
    requires Carries(e, payload, tags, offsets) && Indexed(e) && i + 1 < CountOf(e) == |tags|
    requires IndexOf(e).boundaries == SIZE_LEN + |payload| && IndexOf(e).offsetWidth == WidthFor(|payload|)
    requires |payload| <= U32_MAX
    ensures Boundary(IndexOf(e), i) == offsets[i + 1]
  {
    hide LayoutOf, Directory, Table, LoadLE, Framed, Indexed, MetadataSize;
    TableRead(e, SIZE_LEN + |payload|, offsets, |tags|, WidthFor(|payload|), i);
  }

  lemma CarriedEdge(e: Bytes, payload: Bytes, tags: Bytes, offsets: seq<nat>, i: nat)
    requires Carries(e, payload, tags, offsets) && |payload| <= U32_MAX && i <= |tags|
    ensures Indexed(e) && CountOf(e) == |tags|
    ensures Edge(IndexOf(e), i) == if i == |tags| then |payload| else offsets[i]
  {
    hide LayoutOf, Directory, Table, Framed, DirectoryOk, Boundary, FieldCount, DirectorySize;
    CarriedIndex(e, payload, tags, offsets);
    if 0 < i < |tags| { CarriedBoundary(e, payload, tags, offsets, i - 1); }
  }

  lemma CarriedWellFormed(e: Bytes, payload: Bytes, tags: Bytes, offsets: seq<nat>)
    requires Carries(e, payload, tags, offsets) && |payload| <= U32_MAX
    ensures WellFormed(e)
  {
    hide LayoutOf, Directory, Table, Framed, DirectoryOk, Boundary, FieldCount, DirectorySize;
    CarriedIndex(e, payload, tags, offsets);
    forall i | 0 <= i < CountOf(e) - 1
      ensures Boundary(IndexOf(e), i) <= |payload| && (i > 0 ==> Boundary(IndexOf(e), i - 1) <= Boundary(IndexOf(e), i))
    {
      CarriedBoundary(e, payload, tags, offsets, i);
      if i > 0 { CarriedBoundary(e, payload, tags, offsets, i - 1); }
    }
  }

  // Where field i of the payload ends.
  function FieldEnd(payload: Bytes, offsets: seq<nat>, i: nat): nat
    requires i < |offsets|
  {
    if i + 1 == |offsets| then |payload| else offsets[i + 1]
  }

  lemma CarriedField(e: Bytes, payload: Bytes, tags: Bytes, offsets: seq<nat>, i: nat)
    requires Carries(e, payload, tags, offsets) && |payload| <= U32_MAX
    requires WellFormed(e) && i < CountOf(e) == |tags|
    ensures var found := FieldAtRank(IndexOf(e), i);
            && found.status == OK
            && found.field.start + found.field.length <= |e|
            && Cut(e, found.field) == payload[offsets[i]..FieldEnd(payload, offsets, i)]
  {
    hide LayoutOf, Directory, Table, Framed, WellFormed, Edge, FieldAtRank, MetadataSize;
    FieldBetweenEdges(e, i);
    CarriedEdge(e, payload, tags, offsets, i);
    CarriedEdge(e, payload, tags, offsets, i + 1);
    CarriedSlice(e, payload, tags, offsets, offsets[i], FieldEnd(payload, offsets, i));
  }

  lemma CarriedSlice(e: Bytes, payload: Bytes, tags: Bytes, offsets: seq<nat>, lo: nat, hi: nat)
    requires Carries(e, payload, tags, offsets) && lo <= hi <= |payload|
    ensures SIZE_LEN + hi <= |e| && e[SIZE_LEN + lo..SIZE_LEN + hi] == payload[lo..hi]
  {
    hide LayoutOf, Directory, Table, Framed;
    assert e[SIZE_LEN + lo..SIZE_LEN + hi] == e[SIZE_LEN..SIZE_LEN + |payload|][lo..hi];
  }

  // Whatever was written parses, and the present tags are exactly the written ones.
  lemma RoundTrip(payload: Bytes, tags: Bytes, offsets: seq<nat>, t: byte)
    requires TagsValid(tags) && OffsetsValid(|payload|, tags, offsets) && Fits(|payload|, tags)
    ensures var e := Encode(payload, tags, offsets);
            WellFormed(e) && CountOf(e) == |tags| && (Lists(IndexOf(e), t) <==> t in tags)
  {
    hide LayoutOf, Directory, Table, Framed, Encode, HasTag, Carries;
    var e := Encode(payload, tags, offsets);
    EncodeCarries(payload, tags, offsets);
    CarriedWellFormed(e, payload, tags, offsets);
    CarriedIndex(e, payload, tags, offsets);
    TagsBelowMeaning(KindOf(e), DirectoryOf(e), 256);
    if tags != [] && t in tags { assert t >= tags[0]; }
  }

  // Looking up a written tag yields exactly the payload slice of its field.
  lemma RoundTripField(payload: Bytes, tags: Bytes, offsets: seq<nat>, i: nat)
    requires TagsValid(tags) && OffsetsValid(|payload|, tags, offsets) && Fits(|payload|, tags)
    requires i < |tags|
    ensures var e := Encode(payload, tags, offsets);
            && WellFormed(e)
            && var found := FieldAtRank(IndexOf(e), Rank(IndexOf(e), tags[i]));
               && found.status == OK
               && found.field.start + found.field.length <= |e|
               && Cut(e, found.field) == payload[offsets[i]..FieldEnd(payload, offsets, i)]
  {
    hide LayoutOf, Directory, Table, Framed, Encode, HasTag, Carries, Cut, FieldAtRank;
    var e := Encode(payload, tags, offsets);
    EncodeCarries(payload, tags, offsets);
    CarriedWellFormed(e, payload, tags, offsets);
    CarriedIndex(e, payload, tags, offsets);
    FastAgreesWithScan(e, i, tags[i]);
    CarriedField(e, payload, tags, offsets, i);
  }

  // ---------- the writer ----------

  lemma {:induction false} RestInOtherBlocks(tags: Bytes, n: nat, block: nat)
    requires Positive(tags) && n <= |tags|
    requires forall i :: n <= i < |tags| ==> (tags[i] as int - 1) / 32 != block
    ensures TagMask(tags[..n], block) == TagMask(tags, block)
  {
    if n < |tags| {
      var rest := tags[..|tags| - 1];
      RestInOtherBlocks(rest, n, block);
      assert rest[..n] == tags[..n];
    } else {
      assert tags[..n] == tags;
    }
  }

  method CheckTags(tags: Bytes) returns (ok: bool)
    ensures ok <==> TagsValid(tags)
  {
    if |tags| == 0 { return true; }
    if tags[0] == 0 { return false; }
    for i := 1 to |tags|
      invariant Increasing(tags[..i])
    {
      if tags[i] <= tags[i - 1] {
        assert !Increasing(tags);
        return false;
      }
    }
    assert tags[..|tags|] == tags;
    return true;
  }

  method CheckOffsets(payloadSize: nat, tags: Bytes, offsets: seq<nat>) returns (ok: bool)
    requires |offsets| == |tags|
    ensures ok <==> OffsetsValid(payloadSize, tags, offsets)
  {
    if |tags| == 0 && payloadSize != 0 { return false; }
    if |tags| != 0 && offsets[0] != 0 { return false; }
    for i := 0 to |tags|
      invariant forall k :: 0 <= k < i ==> offsets[k] <= payloadSize && (k > 0 ==> offsets[k - 1] <= offsets[k])
    {
      if offsets[i] > payloadSize || (i != 0 && offsets[i] < offsets[i - 1]) {
        return false;
      }
    }
    return true;
  }

  method DirectoryLayout(tags: Bytes) returns (layout: Layout)
    requires TagsValid(tags)
    ensures layout == LayoutOf(tags)
  {
    if |tags| == 0 { return Layout(EMPTY, 0, 0); }
    var blockMask := 0;
    for i := 0 to |tags|
      invariant blockMask == TopMask(tags[..i])
    {
      assert tags[..i + 1][..i] == tags[..i];
      blockMask := Or(blockMask, Pow2((tags[i] as int - 1) / 32));
    }
    assert tags[..|tags|] == tags;
    layout := Layout(BLOCKS, 1 + 5 * Popcount(blockMask), blockMask);
    var maxTag := tags[|tags| - 1];
    if maxTag <= 8 && 1 <= layout.size {
      layout := layout.(kind := MASK8, size := 1);
    } else if maxTag <= 16 && 2 <= layout.size {
      layout := layout.(kind := MASK16, size := 2);
    } else if maxTag <= 32 && 4 <= layout.size {
      layout := layout.(kind := MASK32, size := 4);
    }
    if |tags| <= 3 && |tags| < layout.size {
      layout := layout.(kind := |tags|, size := |tags|);
    }
  }

  lemma TakeTag(tags: Bytes, next: nat, block: nat)
    requires Positive(tags) && next < |tags| && 32 * block < tags[next] as int <= 32 * block + 32
    ensures TagMask(tags[..next + 1], block)
         == Or(TagMask(tags[..next], block), Pow2(tags[next] as int - (32 * block + 1)))
  {
    assert tags[..next + 1][..next] == tags[..next];
  }

  // The first next tags are the ones up to limit.
  ghost predicate SplitAt(tags: Bytes, next: nat, limit: nat) {
    next <= |tags| && forall i :: 0 <= i < |tags| ==> (i < next <==> tags[i] as int <= limit)
  }

  lemma BeforeBlock(tags: Bytes, from: nat, block: nat)
    requires TagsValid(tags) && SplitAt(tags, from, 32 * block)
    ensures from <= |tags| && TagMask(tags[..from], block) == 0
    ensures forall i :: 0 <= i < from ==> tags[i] as int < 32 * block + 33
  {
    RestInOtherBlocks(tags[..from], 0, block);
  }

  lemma TagInBlock(tags: Bytes, from: nat, next: nat, block: nat)
    requires TagsValid(tags) && SplitAt(tags, from, 32 * block) && from <= next < |tags|
    ensures Positive(tags) && 32 * block < tags[next] as int
  {
  }

  lemma BlockTaken(tags: Bytes, from: nat, next: nat, block: nat)
    requires TagsValid(tags) && SplitAt(tags, from, 32 * block) && from <= next <= |tags|
    requires forall i :: 0 <= i < next ==> tags[i] as int < 32 * block + 33
    requires next < |tags| ==> tags[next] as int >= 32 * block + 33
    ensures SplitAt(tags, next, 32 * (block + 1)) && TagMask(tags[..next], block) == TagMask(tags, block)
  {
    hide TagMask;
    RestInOtherBlocks(tags, next, block);
  }

  lemma StartOfTags(tags: Bytes)
    requires TagsValid(tags)
    ensures SplitAt(tags, 0, 0) && Positive(tags)
  {
  }

  lemma EntriesStep(tags: Bytes, n: nat)
    requires Positive(tags)
    ensures BlockEntries(tags, 0) == [] && TagsBefore(tags, 0) == 0
    ensures BlockEntries(tags, n + 1)
         == BlockEntries(tags, n) + if Bit(TopMask(tags), n) then BlockEntry(tags, n) else []
  {
  }

  method MaskOfTags(tags: Bytes) returns (mask: nat)
    requires TagsValid(tags) && (tags != [] ==> tags[|tags| - 1] <= 32)
    ensures mask == TagMask(tags, 0)
  {
    mask := 0;
    for i := 0 to |tags|
      invariant mask == TagMask(tags[..i], 0)
    {
      assert tags[..i + 1][..i] == tags[..i];
      mask := Or(mask, Pow2(tags[i] - 1));
    }
    assert tags[..|tags|] == tags;
  }

  // What finishing a message answers before it asks for room.
  function EndCheck(
    written: nat, lengthPosition: nat, payloadStart: nat, tags: Bytes, offsets: seq<nat>): Status
  {
    if !TagsValid(tags) || lengthPosition + SIZE_LEN != payloadStart || payloadStart > written then INVALID
    else if written - payloadStart > U32_MAX then OVERFLOW
    else if !OffsetsValid(written - payloadStart, tags, offsets) then INVALID
    else if !Fits(written - payloadStart, tags) then OVERFLOW
    else OK
  }

  // The size a buffer of this size is doubled to until it has room for target, or target itself when
  // doubling once more would not fit.
  function Doubled(size: nat, target: nat): nat
    requires size > 0
    decreases target - size
  {
    if size >= target then size else if size > SIZE_MAX / 2 then target else Doubled(size * 2, target)
  }

  // size * 2^k
  function Twice(size: nat, k: nat): nat
    decreases k
  {
    if k == 0 then size else Twice(size * 2, k - 1)
  }

  // It is the least size of the doubling sequence that has room, or target when that is more than fits.
  lemma {:induction false} DoubledIsLeast(size: nat, target: nat) returns (k: nat)
    requires 0 < size <= SIZE_MAX && target <= SIZE_MAX
    ensures target <= Doubled(size, target) <= SIZE_MAX
    ensures Doubled(size, target) == if Twice(size, k) >= target then Twice(size, k) else target
    ensures Twice(size, k) < target ==> Twice(size, k) > SIZE_MAX / 2
    ensures forall j :: 0 <= j < k ==> Twice(size, j) < target
    decreases target - size
  {
    k := 0;
    if size < target && size <= SIZE_MAX / 2 {
      var n := DoubledIsLeast(size * 2, target);
      k := n + 1;
      forall j | 0 <= j < k
        ensures Twice(size, j) < target
      {
        if j > 0 { assert Twice(size, j) == Twice(size * 2, j - 1); }
      }
    }
  }

  function ReserveStatus(capacity: nat, current: nat, additional: nat, arenaHasRoom: bool): Status
    requires current <= capacity <= SIZE_MAX
  {
    if additional <= capacity - current then OK
    else if additional > SIZE_MAX - current then OVERFLOW
    else if arenaHasRoom then OK
    else OOM
  }

  class Writer {
    var buffer: array<byte>
    var current: nat

    ghost predicate Valid()
      reads this
    {
      current <= buffer.Length <= SIZE_MAX
    }

    // What has been written so far.
    function View(): Bytes
      requires Valid()
      reads this, buffer
    {
      buffer[..current]
    }

    constructor (capacity: nat)
      requires capacity <= SIZE_MAX
      ensures Valid() && View() == [] && fresh(buffer)
    {
      buffer := new byte[capacity];
      current := 0;
    }

    // arenaHasRoom says whether the arena grants the new buffer.
    method Reserve(additional: nat, arenaHasRoom: bool) returns (status: Status)
      requires Valid()
      modifies this
      ensures Valid() && View() == old(View()) && current == old(current)
      ensures buffer == old(buffer) || fresh(buffer)
      ensures status == ReserveStatus(old(buffer.Length), current, additional, arenaHasRoom)
      ensures status == OK ==> additional <= buffer.Length - current
      ensures var size := if old(buffer.Length) > 0 then old(buffer.Length) else 16;
              buffer.Length == if status == OK && additional > old(buffer.Length) - current
                               then Doubled(size, current + additional)
                               else old(buffer.Length)
    {
      if additional <= buffer.Length - current {
        return OK;
      }
      if additional > SIZE_MAX - current {
        return OVERFLOW;
      }
      var target := current + additional;
      var newSize := if buffer.Length > 0 then buffer.Length else 16;
      while newSize < target
        invariant 0 < newSize <= SIZE_MAX
        invariant Doubled(newSize, target) == Doubled(if buffer.Length > 0 then buffer.Length else 16, target)
        decreases target - newSize
      {
        if newSize > SIZE_MAX / 2 {
          newSize := target;
          break;
        }
        newSize := newSize * 2;
      }
      if !arenaHasRoom {
        return OOM;
      }
      var newBuffer := new byte[newSize];
      for i := 0 to current
        invariant newBuffer[..i] == buffer[..i]
        modifies newBuffer
      {
        newBuffer[i] := buffer[i];
      }
      buffer := newBuffer;
      return OK;
    }

    method Put(value: byte)
      requires Valid() && current < buffer.Length
      modifies this`current, buffer
      ensures Valid() && View() == old(View()) + [value] && current == old(current) + 1
    {
      buffer[current] := value;
      current := current + 1;
    }

    // bebop_wire_store_le
    method PutLE(value: nat, width: nat)
      requires Valid() && IsWidth(width) && current + width <= buffer.Length
      modifies this`current, buffer
      ensures Valid() && View() == old(View()) + StoreLE(value, width) && current == old(current) + width
    {
      Put(value % 0x100);
      if width > 1 {
        Put(value / 0x100 % 0x100);
        if width > 2 {
          Put(value / 0x1_0000 % 0x100);
          Put(value / 0x100_0000 % 0x100);
        }
      }
    }

    // Patches the length that was reserved at this position.
    method EndLength(position: nat, length: u32) returns (status: Status)
      requires Valid()
      modifies buffer
      ensures status == if current < SIZE_LEN || position > current - SIZE_LEN then MALFORMED else OK
      ensures status == OK ==>
        View() == old(View())[..position] + StoreLE(length, 4) + old(View())[position + SIZE_LEN..]
      ensures status != OK ==> View() == old(View())
    {
      if current < SIZE_LEN || position > current - SIZE_LEN {
        return MALFORMED;
      }
      buffer[position] := length % 0x100;
      buffer[position + 1] := length / 0x100 % 0x100;
      buffer[position + 2] := length / 0x1_0000 % 0x100;
      buffer[position + 3] := length / 0x100_0000 % 0x100;
      return OK;
    }

    method PutAll(bytes: Bytes)
      requires Valid() && current + |bytes| <= buffer.Length
      modifies this`current, buffer
      ensures Valid() && View() == old(View()) + bytes && current == old(current) + |bytes|
    {
      for i := 0 to |bytes|
        invariant Valid() && current == old(current) + i
        invariant View() == old(View()) + bytes[..i]
      {
        Put(bytes[i]);
      }
      assert bytes[..|bytes|] == bytes;
    }

    method PutTable(offsets: seq<nat>, width: nat)
      requires Valid() && IsWidth(width)
      requires current + |Table(offsets, |offsets|, width)| <= buffer.Length
      modifies this`current, buffer
      ensures Valid() && View() == old(View()) + Table(offsets, |offsets|, width)
      ensures current == old(current) + |Table(offsets, |offsets|, width)|
    {
      hide StoreLE;
      var i := 1;
      while i < |offsets|
        invariant 1 <= i && (i <= |offsets| || |offsets| == 0)
        invariant Valid() && View() == old(View()) + Table(offsets, if i <= |offsets| then i else 0, width)
        decreases |offsets| - i
      {
        TableGrows(offsets, i + 1, |offsets|, width);
        PutLE(offsets[i], width);
        i := i + 1;
      }
    }

    // The tags of one block, found by walking on from the first tag not yet taken.
    method TakeBlock(tags: Bytes, block: nat, from: nat) returns (mask: nat, next: nat)
      requires TagsValid(tags) && block < 8 && SplitAt(tags, from, 32 * block)
      ensures mask == TagMask(tags, block) && SplitAt(tags, next, 32 * (block + 1))
    {
      hide Or, Pow2, TagMask, SplitAt;
      var firstTag := block * 32 + 1;
      var blockLimit := firstTag + 32;
      mask, next := 0, from;
      BeforeBlock(tags, from, block);
      while next < |tags| && tags[next] as int < blockLimit
        invariant from <= next <= |tags|
        invariant forall i :: 0 <= i < next ==> tags[i] as int < blockLimit
        invariant mask == TagMask(tags[..next], block)
      {
        TagInBlock(tags, from, next, block);
        TakeTag(tags, next, block);
        mask := Or(mask, Pow2(tags[next] as int - firstTag));
        next := next + 1;
      }
      BlockTaken(tags, from, next, block);
    }

    method PutBlocks(tags: Bytes, blockMask: nat)
      requires Valid() && TagsValid(tags) && blockMask == TopMask(tags)
      requires current + |BlockEntries(tags, 8)| <= buffer.Length
      modifies this`current, buffer
      ensures Valid() && View() == old(View()) + BlockEntries(tags, 8)
      ensures current == old(current) + |BlockEntries(tags, 8)|
    {
      hide TagMask, TopMask, BlockEntries, BlockEntry, TagsBefore, SplitAt, Bit, TagsValid;
      StartOfTags(tags);
      var next, rank := 0, 0;
      EntriesStep(tags, 0);
      for block := 0 to 8
        invariant Valid() && View() == old(View()) + BlockEntries(tags, block)
        invariant rank == TagsBefore(tags, block)
        invariant SplitAt(tags, next, 32 * block)
      {
        EntriesStep(tags, block);
        EntriesGrow(tags, block + 1, 8);
        next, rank := PutBlock(tags, blockMask, block, next, rank);
      }
    }

    method PutBlock(tags: Bytes, blockMask: nat, block: nat, next: nat, rank: nat)
      returns (nextAfter: nat, rankAfter: nat)
      requires Valid() && TagsValid(tags) && blockMask == TopMask(tags) && block < 8
      requires rank == TagsBefore(tags, block) && SplitAt(tags, next, 32 * block)
      requires Bit(blockMask, block) ==> current + 5 <= buffer.Length
      modifies this`current, buffer
      ensures Valid()
      ensures View() == old(View()) + if Bit(blockMask, block) then BlockEntry(tags, block) else []
      ensures rankAfter == TagsBefore(tags, block + 1) && SplitAt(tags, nextAfter, 32 * (block + 1))
    {
      hide TagMask, TopMask, BlockEntry, Bit, Or, And, Popcount;
      TestBit(blockMask, block);
      if And(blockMask, Pow2(block)) == 0 {
        EmptyBlock(tags, block);
        return next, rank;
      }
      var mask;
      mask, nextAfter := TakeBlock(tags, block, next);
      PutEntry(tags, block, rank, mask);
      RanksFit(tags, block + 1);
      rankAfter := (rank + Popcount(mask)) % 0x100;
    }

    method PutEntry(ghost tags: Bytes, ghost block: nat, rank: nat, mask: nat)
      requires Valid() && Positive(tags) && block < 8
      requires rank == TagsBefore(tags, block) && mask == TagMask(tags, block)
      requires current + 5 <= buffer.Length
      modifies this`current, buffer
      ensures Valid() && View() == old(View()) + BlockEntry(tags, block) && current == old(current) + 5
    {
      hide StoreLE, TagMask, TagsBefore;
      RanksFit(tags, block);
      Put(rank);
      PutLE(mask, 4);
    }

    method PutDirectory(tags: Bytes, layout: Layout)
      requires Valid() && TagsValid(tags) && layout == LayoutOf(tags)
      requires current + |Directory(tags)| <= buffer.Length
      modifies this`current, buffer
      ensures Valid() && View() == old(View()) + Directory(tags)
      ensures current == old(current) + |Directory(tags)|
    {
      hide StoreLE, TagMask, TopMask, BlockEntries, Bit, Popcount;
      if layout.kind <= TINY3 {
        PutAll(tags);
      } else if layout.kind <= MASK32 {
        var mask := MaskOfTags(tags);
        PutLE(mask, layout.size);
      } else {
        TopMaskBits(tags, 0);
        PutBlocks(tags, layout.blockMask);
        Put(layout.blockMask);
      }
    }

    // Appends boundary table, directory and control byte to the payload that was written after the
    // reserved length, and patches the length.
    method EndIndexedMessage(
        lengthPosition: nat, payloadStart: nat, tags: Bytes, offsets: seq<nat>, arenaHasRoom: bool)
      returns (status: Status)
      requires Valid() && |tags| == |offsets|
      modifies this, buffer
      ensures Valid()
      ensures var check := EndCheck(old(current), lengthPosition, payloadStart, tags, offsets);
              status == if check != OK then check
                        else ReserveStatus(old(buffer.Length), old(current),
                                           MetadataSize(old(current) - payloadStart, tags), arenaHasRoom)
      ensures status == OK ==>
        && EndCheck(old(current), lengthPosition, payloadStart, tags, offsets) == OK
        && View() == old(View())[..lengthPosition] + Encode(old(View())[payloadStart..], tags, offsets)
      ensures status != OK ==> View() == old(View())
    {
      hide TagsValid, OffsetsValid, StoreLE, Encode, LayoutOf;
      var ok := CheckTags(tags);
      if !ok { return INVALID; }
      var written := current;
      if lengthPosition + SIZE_LEN != payloadStart || payloadStart > written { return INVALID; }
      var payloadSize := written - payloadStart;
      if payloadSize > U32_MAX { return OVERFLOW; }
      ok := CheckOffsets(payloadSize, tags, offsets);
      if !ok { return INVALID; }

      var width := WidthFor(payloadSize);
      var layout := DirectoryLayout(tags);
      var boundaryCount := if |tags| == 0 then 0 else |tags| - 1;
      var metadataSize := 1 + layout.size + boundaryCount * width;
      if payloadSize + metadataSize > U32_MAX { return OVERFLOW; }
      status := Reserve(metadataSize, arenaHasRoom);
      if status != OK { return; }
      status := Finish(lengthPosition, payloadSize, metadataSize, tags, offsets, layout);
    }

    method Finish(
        lengthPosition: nat, payloadSize: nat, metadataSize: nat, tags: Bytes, offsets: seq<nat>, layout: Layout)
      returns (status: Status)
      requires Valid() && lengthPosition + SIZE_LEN + payloadSize == current
      requires TagsValid(tags) && layout == LayoutOf(tags) && OffsetsValid(payloadSize, tags, offsets)
      requires Fits(payloadSize, tags) && metadataSize == MetadataSize(payloadSize, tags) <= buffer.Length - current
      modifies this`current, buffer
      ensures Valid() && status == OK
      ensures View() == old(View())[..lengthPosition]
                        + Encode(old(View())[lengthPosition + SIZE_LEN..], tags, offsets)
    {
      hide TagsValid, LayoutOf, OffsetsValid, StoreLE, Metadata, MetadataSize;
      MetadataLength(payloadSize, tags, offsets);
      PutMetadata(payloadSize, tags, offsets, layout);
      status := EndLength(lengthPosition, payloadSize + metadataSize);
    }

    method PutMetadata(payloadSize: nat, tags: Bytes, offsets: seq<nat>, layout: Layout)
      requires Valid() && TagsValid(tags) && layout == LayoutOf(tags) && OffsetsValid(payloadSize, tags, offsets)
      requires current + |Metadata(payloadSize, tags, offsets)| <= buffer.Length
      modifies this`current, buffer
      ensures Valid() && View() == old(View()) + Metadata(payloadSize, tags, offsets)
      ensures current == old(current) + |Metadata(payloadSize, tags, offsets)|
    {
      hide Table, Directory, LayoutOf;
      DirectoryDenotes(tags);
      var width := WidthFor(payloadSize);
      PutTable(offsets, width);
      PutDirectory(tags, layout);
      Put(4 * layout.kind + if width == 1 then 0 else if width == 2 then 1 else 2);
    }
  }

  // A block whose bit is not set holds none of the tags.
  lemma EmptyBlock(tags: Bytes, block: nat)
    requires TagsValid(tags) && !Bit(TopMask(tags), block)
    ensures TagMask(tags, block) == 0 && TagsBefore(tags, block + 1) == TagsBefore(tags, block)
    ensures forall next :: SplitAt(tags, next, 32 * block) ==> SplitAt(tags, next, 32 * (block + 1))
  {
    hide Bit, TagMask, TopMask;
    TopMaskBits(tags, block);
    assert tags[..0] == [];
    RestInOtherBlocks(tags, 0, block);
    EmptyMask(block);
  }

  lemma EmptyMask(block: nat)
    ensures TagMask([], block) == 0
  {
  }

  lemma {:induction false} TableGrows(offsets: seq<nat>, m: nat, n: nat, width: nat)
    requires IsWidth(width) && m <= n <= |offsets|
    ensures |Table(offsets, m, width)| <= |Table(offsets, n, width)|
  {
    if m < n { TableGrows(offsets, m, n - 1, width); }
  }

  lemma {:induction false} EntriesGrow(tags: Bytes, m: nat, n: nat)
    requires Positive(tags) && m <= n
    ensures |BlockEntries(tags, m)| <= |BlockEntries(tags, n)|
  {
    if m < n { EntriesGrow(tags, m, n - 1); }
  }
}
