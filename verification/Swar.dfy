/** The word-parallel group operations of the hash map: eight control bytes are examined at once in a
    64-bit word, and the result word has a non-zero byte for every selected slot. */
module Swar {

  // A control byte: empty, deleted, or the fingerprint of a full slot.
  datatype Byte = Byte(bits: bv8)

  const EMPTY := Byte(0x80)
  const DELETED := Byte(0xFE)

  const ONES: bv64 := 0x0101_0101_0101_0101
  const HIGHS: bv64 := 0x8080_8080_8080_8080

  predicate IsFull(c: Byte) { c.bits < 0x80 }

  predicate IsControl(c: Byte) { IsFull(c) || c == EMPTY || c == DELETED }

  // Eight control bytes as the little-endian word a load of them gives.
  function Word(b0: bv8, b1: bv8, b2: bv8, b3: bv8, b4: bv8, b5: bv8, b6: bv8, b7: bv8): bv64 {
    (b0 as bv64) | (b1 as bv64 << 8) | (b2 as bv64 << 16) | (b3 as bv64 << 24)
    | (b4 as bv64 << 32) | (b5 as bv64 << 40) | (b6 as bv64 << 48) | (b7 as bv64 << 56)
  }

  function Broadcast(h2: bv8): bv64 { ONES * (h2 as bv64) }

  // The zero-byte detection trick.
  function ZeroBytes(diff: bv64): bv64 { (diff - ONES) & !diff & HIGHS }

  function MatchH2(word: bv64, h2: bv8): bv64 { ZeroBytes(word ^ Broadcast(h2)) }

  function MatchEmpty(word: bv64): bv64 { word & !(word << 1) & HIGHS }

  function MatchEmptyOrDeleted(word: bv64): bv64 { word & HIGHS }

  // ---------- match words as eight truth values ----------

  datatype Lanes = Lanes(b0: bool, b1: bool, b2: bool, b3: bool, b4: bool, b5: bool, b6: bool, b7: bool) {
    predicate At(i: nat)
      requires i < 8
    {
      if i == 0 then b0 else if i == 1 then b1 else if i == 2 then b2 else if i == 3 then b3
      else if i == 4 then b4 else if i == 5 then b5 else if i == 6 then b6 else b7
    }

    // The selected slots after offset.
    function After(offset: nat): Lanes {
      Lanes(false, b1 && 1 > offset, b2 && 2 > offset, b3 && 3 > offset,
            b4 && 4 > offset, b5 && 5 > offset, b6 && 6 > offset, b7 && 7 > offset)
    }
  }

  const NONE := Lanes(false, false, false, false, false, false, false, false)

  // Which of the eight slots a match word selects.
  function LanesOf(m: bv64): Lanes {
    Lanes(m & 0xFF != 0, m & 0xFF00 != 0, m & 0xFF_0000 != 0, m & 0xFF00_0000 != 0,
          m & 0xFF_0000_0000 != 0, m & 0xFF00_0000_0000 != 0, m & 0xFF_0000_0000_0000 != 0,
          m & 0xFF00_0000_0000_0000 != 0)
  }

  predicate Hit(m: bv64, i: nat)
    requires i < 8
  {
    LanesOf(m).At(i)
  }

  // The lowest selected slot, or 8: trailing zeros divided by 8.
  function MatchFirst(m: bv64): nat { FirstFrom(m, 0) }

  function FirstFrom(m: bv64, i: nat): (n: nat)
    requires i <= 8
    ensures i <= n <= 8
    ensures forall k :: i <= k < n ==> !Hit(m, k)
    ensures n < 8 ==> Hit(m, n)
    decreases 8 - i
  {
    if i == 8 || Hit(m, i) then i else FirstFrom(m, i + 1)
  }

  // m & ~((1 << 8 * (offset + 1)) - 1), and nothing once the shift reaches the word size
  function ClearMatch(m: bv64, offset: nat): bv64
    requires offset < 8
  {
    if offset == 0 then m & 0xFFFF_FFFF_FFFF_FF00
    else if offset == 1 then m & 0xFFFF_FFFF_FFFF_0000
    else if offset == 2 then m & 0xFFFF_FFFF_FF00_0000
    else if offset == 3 then m & 0xFFFF_FFFF_0000_0000
    else if offset == 4 then m & 0xFFFF_FF00_0000_0000
    else if offset == 5 then m & 0xFFFF_0000_0000_0000
    else if offset == 6 then m & 0xFF00_0000_0000_0000
    else 0
  }

  lemma NoHits(m: bv64)
    ensures m == 0 <==> forall i :: 0 <= i < 8 ==> !Hit(m, i)
  {
    NoLanes(m);
    hide LanesOf;
    if forall i :: 0 <= i < 8 ==> !Hit(m, i) {
      assert !Hit(m, 0) && !Hit(m, 1) && !Hit(m, 2) && !Hit(m, 3);
      assert !Hit(m, 4) && !Hit(m, 5) && !Hit(m, 6) && !Hit(m, 7);
    }
  }

  lemma NoLanes(m: bv64)
    ensures m == 0 <==> LanesOf(m) == NONE
  {
  }

  // One slot number a lemma keeps the bit-vector queries small.
  lemma ClearZero(m: bv64)
    ensures LanesOf(ClearMatch(m, 0)) == LanesOf(m).After(0)
    ensures LanesOf(m).b0 ==> ClearMatch(m & (m - 1), 0) == ClearMatch(m, 0)
  {
  }

  lemma ClearOne(m: bv64)
    ensures LanesOf(ClearMatch(m, 1)) == LanesOf(m).After(1)
    ensures LanesOf(m).b1 ==> ClearMatch(m & (m - 1), 1) == ClearMatch(m, 1)
  {
  }

  lemma ClearTwo(m: bv64)
    ensures LanesOf(ClearMatch(m, 2)) == LanesOf(m).After(2)
    ensures LanesOf(m).b2 ==> ClearMatch(m & (m - 1), 2) == ClearMatch(m, 2)
  {
  }

  lemma ClearThree(m: bv64)
    ensures LanesOf(ClearMatch(m, 3)) == LanesOf(m).After(3)
    ensures LanesOf(m).b3 ==> ClearMatch(m & (m - 1), 3) == ClearMatch(m, 3)
  {
  }

  lemma ClearFour(m: bv64)
    ensures LanesOf(ClearMatch(m, 4)) == LanesOf(m).After(4)
    ensures LanesOf(m).b4 ==> ClearMatch(m & (m - 1), 4) == ClearMatch(m, 4)
  {
  }

  lemma ClearFive(m: bv64)
    ensures LanesOf(ClearMatch(m, 5)) == LanesOf(m).After(5)
    ensures LanesOf(m).b5 ==> ClearMatch(m & (m - 1), 5) == ClearMatch(m, 5)
  {
  }

  lemma ClearSix(m: bv64)
    ensures LanesOf(ClearMatch(m, 6)) == LanesOf(m).After(6)
    ensures LanesOf(m).b6 ==> ClearMatch(m & (m - 1), 6) == ClearMatch(m, 6)
  {
  }

  lemma ClearSeven(m: bv64)
    ensures LanesOf(ClearMatch(m, 7)) == LanesOf(m).After(7)
    ensures LanesOf(m).b7 ==> ClearMatch(m & (m - 1), 7) == ClearMatch(m, 7)
  {
  }

  // Clearing up to a slot keeps exactly the later hits; that bebop_map_get also clears the lowest bit
  // first makes no difference.
  lemma ClearedLanes(m: bv64, offset: nat)
    requires offset < 8
    ensures LanesOf(ClearMatch(m, offset)) == LanesOf(m).After(offset)
    ensures LanesOf(m).At(offset) ==> ClearMatch(m & (m - 1), offset) == ClearMatch(m, offset)
  {
    hide LanesOf, ClearMatch;
    if offset == 0 { ClearZero(m); }
    else if offset == 1 { ClearOne(m); }
    else if offset == 2 { ClearTwo(m); }
    else if offset == 3 { ClearThree(m); }
    else if offset == 4 { ClearFour(m); }
    else if offset == 5 { ClearFive(m); }
    else if offset == 6 { ClearSix(m); }
    else { ClearSeven(m); }
  }

  // ---------- what the match words select ----------

  // The fingerprint is hit, and a hit is on the fingerprint or its neighbour, which is a full slot too.
  predicate Selects(hit: bool, c: bv8, h2: bv8) {
    (c == h2 ==> hit) && (hit ==> c == h2 || c == h2 ^ 1)
  }

  lemma MatchZero(b0: bv8, b1: bv8, b2: bv8, b3: bv8, b4: bv8, b5: bv8, b6: bv8, b7: bv8, h2: bv8)
    ensures var word := Word(b0, b1, b2, b3, b4, b5, b6, b7) ^ Word(h2, h2, h2, h2, h2, h2, h2, h2);
            Selects(LanesOf(ZeroBytes(word)).b0, b0, h2)
  {
  }

  lemma MatchOne(b0: bv8, b1: bv8, b2: bv8, b3: bv8, b4: bv8, b5: bv8, b6: bv8, b7: bv8, h2: bv8)
    ensures var word := Word(b0, b1, b2, b3, b4, b5, b6, b7) ^ Word(h2, h2, h2, h2, h2, h2, h2, h2);
            Selects(LanesOf(ZeroBytes(word)).b1, b1, h2)
  {
  }

  lemma MatchTwo(b0: bv8, b1: bv8, b2: bv8, b3: bv8, b4: bv8, b5: bv8, b6: bv8, b7: bv8, h2: bv8)
    ensures var word := Word(b0, b1, b2, b3, b4, b5, b6, b7) ^ Word(h2, h2, h2, h2, h2, h2, h2, h2);
            Selects(LanesOf(ZeroBytes(word)).b2, b2, h2)
  {
  }

  lemma MatchThree(b0: bv8, b1: bv8, b2: bv8, b3: bv8, b4: bv8, b5: bv8, b6: bv8, b7: bv8, h2: bv8)
    ensures var word := Word(b0, b1, b2, b3, b4, b5, b6, b7) ^ Word(h2, h2, h2, h2, h2, h2, h2, h2);
            Selects(LanesOf(ZeroBytes(word)).b3, b3, h2)
  {
  }

  lemma MatchFour(b0: bv8, b1: bv8, b2: bv8, b3: bv8, b4: bv8, b5: bv8, b6: bv8, b7: bv8, h2: bv8)
    ensures var word := Word(b0, b1, b2, b3, b4, b5, b6, b7) ^ Word(h2, h2, h2, h2, h2, h2, h2, h2);
            Selects(LanesOf(ZeroBytes(word)).b4, b4, h2)
  {
  }

  lemma MatchFive(b0: bv8, b1: bv8, b2: bv8, b3: bv8, b4: bv8, b5: bv8, b6: bv8, b7: bv8, h2: bv8)
    ensures var word := Word(b0, b1, b2, b3, b4, b5, b6, b7) ^ Word(h2, h2, h2, h2, h2, h2, h2, h2);
            Selects(LanesOf(ZeroBytes(word)).b5, b5, h2)
  {
  }

  lemma MatchSix(b0: bv8, b1: bv8, b2: bv8, b3: bv8, b4: bv8, b5: bv8, b6: bv8, b7: bv8, h2: bv8)
    ensures var word := Word(b0, b1, b2, b3, b4, b5, b6, b7) ^ Word(h2, h2, h2, h2, h2, h2, h2, h2);
            Selects(LanesOf(ZeroBytes(word)).b6, b6, h2)
  {
  }

  lemma MatchSeven(b0: bv8, b1: bv8, b2: bv8, b3: bv8, b4: bv8, b5: bv8, b6: bv8, b7: bv8, h2: bv8)
    ensures var word := Word(b0, b1, b2, b3, b4, b5, b6, b7) ^ Word(h2, h2, h2, h2, h2, h2, h2, h2);
            Selects(LanesOf(ZeroBytes(word)).b7, b7, h2)
  {
  }

  // ONES * h2 puts h2 in every byte.
  lemma BroadcastIsWord(h2: bv8)
    ensures Broadcast(h2) == Word(h2, h2, h2, h2, h2, h2, h2, h2)
  {
  }

  lemma MatchLanes(b0: bv8, b1: bv8, b2: bv8, b3: bv8, b4: bv8, b5: bv8, b6: bv8, b7: bv8, h2: bv8)
    ensures var l := LanesOf(MatchH2(Word(b0, b1, b2, b3, b4, b5, b6, b7), h2));
            && Selects(l.b0, b0, h2) && Selects(l.b1, b1, h2) && Selects(l.b2, b2, h2) && Selects(l.b3, b3, h2)
            && Selects(l.b4, b4, h2) && Selects(l.b5, b5, h2) && Selects(l.b6, b6, h2) && Selects(l.b7, b7, h2)
  {
    hide LanesOf, ZeroBytes, Word, Broadcast, Selects;
    BroadcastIsWord(h2);
    MatchZero(b0, b1, b2, b3, b4, b5, b6, b7, h2);
    MatchOne(b0, b1, b2, b3, b4, b5, b6, b7, h2);
    MatchTwo(b0, b1, b2, b3, b4, b5, b6, b7, h2);
    MatchThree(b0, b1, b2, b3, b4, b5, b6, b7, h2);
    MatchFour(b0, b1, b2, b3, b4, b5, b6, b7, h2);
    MatchFive(b0, b1, b2, b3, b4, b5, b6, b7, h2);
    MatchSix(b0, b1, b2, b3, b4, b5, b6, b7, h2);
    MatchSeven(b0, b1, b2, b3, b4, b5, b6, b7, h2);
  }

  predicate MarksEmpty(hit: bool, c: bv8) { c < 0x80 || c == 0x80 || c == 0xFE ==> hit == (c == 0x80) }

  lemma EmptyLanes(b0: bv8, b1: bv8, b2: bv8, b3: bv8, b4: bv8, b5: bv8, b6: bv8, b7: bv8)
    ensures var l := LanesOf(MatchEmpty(Word(b0, b1, b2, b3, b4, b5, b6, b7)));
            && MarksEmpty(l.b0, b0) && MarksEmpty(l.b1, b1) && MarksEmpty(l.b2, b2) && MarksEmpty(l.b3, b3)
            && MarksEmpty(l.b4, b4) && MarksEmpty(l.b5, b5) && MarksEmpty(l.b6, b6) && MarksEmpty(l.b7, b7)
  {
  }

  predicate High(c: bv8) { c >= 0x80 }

  lemma VacantLanes(b0: bv8, b1: bv8, b2: bv8, b3: bv8, b4: bv8, b5: bv8, b6: bv8, b7: bv8)
    ensures LanesOf(MatchEmptyOrDeleted(Word(b0, b1, b2, b3, b4, b5, b6, b7)))
         == Lanes(High(b0), High(b1), High(b2), High(b3), High(b4), High(b5), High(b6), High(b7))
  {
  }

  // The word loaded from eight consecutive control bytes.
  function GroupWord(ctrl: seq<Byte>, g: nat): bv64
    requires g + 8 <= |ctrl|
  {
    Word(ctrl[g].bits, ctrl[g + 1].bits, ctrl[g + 2].bits, ctrl[g + 3].bits,
         ctrl[g + 4].bits, ctrl[g + 5].bits, ctrl[g + 6].bits, ctrl[g + 7].bits)
  }

  lemma PickLane(l: Lanes, ctrl: seq<Byte>, g: nat, h2: Byte, i: nat)
    requires g + 8 <= |ctrl| && IsFull(h2) && i < 8
    requires Selects(l.b0, ctrl[g].bits, h2.bits) && Selects(l.b1, ctrl[g + 1].bits, h2.bits)
    requires Selects(l.b2, ctrl[g + 2].bits, h2.bits) && Selects(l.b3, ctrl[g + 3].bits, h2.bits)
    requires Selects(l.b4, ctrl[g + 4].bits, h2.bits) && Selects(l.b5, ctrl[g + 5].bits, h2.bits)
    requires Selects(l.b6, ctrl[g + 6].bits, h2.bits) && Selects(l.b7, ctrl[g + 7].bits, h2.bits)
    ensures ctrl[g + i] == h2 ==> l.At(i)
    ensures l.At(i) ==> IsFull(ctrl[g + i])
  {
    hide Selects, IsFull;
    SelectsMeaning(l.At(i), ctrl[g + i], h2);
  }

  lemma SelectsMeaning(hit: bool, c: Byte, h2: Byte)
    requires Selects(hit, c.bits, h2.bits) && IsFull(h2)
    ensures (c == h2 ==> hit) && (hit ==> IsFull(c))
  {
  }

  // Every slot with this fingerprint is hit, and every hit is on a full slot.
  lemma MatchH2Slots(ctrl: seq<Byte>, g: nat, h2: Byte, i: nat)
    requires g + 8 <= |ctrl| && IsFull(h2) && i < 8
    ensures ctrl[g + i] == h2 ==> Hit(MatchH2(GroupWord(ctrl, g), h2.bits), i)
    ensures Hit(MatchH2(GroupWord(ctrl, g), h2.bits), i) ==> IsFull(ctrl[g + i])
  {
    hide LanesOf, MatchH2, Word, Selects, IsFull;
    MatchLanes(ctrl[g].bits, ctrl[g + 1].bits, ctrl[g + 2].bits, ctrl[g + 3].bits,
               ctrl[g + 4].bits, ctrl[g + 5].bits, ctrl[g + 6].bits, ctrl[g + 7].bits, h2.bits);
    PickLane(LanesOf(MatchH2(GroupWord(ctrl, g), h2.bits)), ctrl, g, h2, i);
  }

  // The empty mask is exact on control bytes.
  lemma MatchEmptySlots(ctrl: seq<Byte>, g: nat, i: nat)
    requires g + 8 <= |ctrl| && i < 8 && IsControl(ctrl[g + i])
    ensures Hit(MatchEmpty(GroupWord(ctrl, g)), i) <==> ctrl[g + i] == EMPTY
  {
    hide LanesOf, MatchEmpty, Word, IsControl, MarksEmpty;
    EmptyLanes(ctrl[g].bits, ctrl[g + 1].bits, ctrl[g + 2].bits, ctrl[g + 3].bits,
               ctrl[g + 4].bits, ctrl[g + 5].bits, ctrl[g + 6].bits, ctrl[g + 7].bits);
    EmptyLane(LanesOf(MatchEmpty(GroupWord(ctrl, g))), ctrl, g, i);
  }

  lemma EmptyLane(l: Lanes, ctrl: seq<Byte>, g: nat, i: nat)
    requires g + 8 <= |ctrl| && i < 8 && IsControl(ctrl[g + i])
    requires MarksEmpty(l.b0, ctrl[g].bits) && MarksEmpty(l.b1, ctrl[g + 1].bits)
    requires MarksEmpty(l.b2, ctrl[g + 2].bits) && MarksEmpty(l.b3, ctrl[g + 3].bits)
    requires MarksEmpty(l.b4, ctrl[g + 4].bits) && MarksEmpty(l.b5, ctrl[g + 5].bits)
    requires MarksEmpty(l.b6, ctrl[g + 6].bits) && MarksEmpty(l.b7, ctrl[g + 7].bits)
    ensures l.At(i) <==> ctrl[g + i] == EMPTY
  {
    hide MarksEmpty, IsControl;
    MarksEmptyMeaning(l.At(i), ctrl[g + i]);
  }

  lemma MarksEmptyMeaning(hit: bool, c: Byte)
    requires MarksEmpty(hit, c.bits) && IsControl(c)
    ensures hit <==> c == EMPTY
  {
  }

  lemma MatchVacantSlots(ctrl: seq<Byte>, g: nat, i: nat)
    requires g + 8 <= |ctrl| && i < 8
    ensures Hit(MatchEmptyOrDeleted(GroupWord(ctrl, g)), i) <==> !IsFull(ctrl[g + i])
  {
    hide LanesOf, MatchEmptyOrDeleted, Word, High, IsFull;
    VacantLanes(ctrl[g].bits, ctrl[g + 1].bits, ctrl[g + 2].bits, ctrl[g + 3].bits,
                ctrl[g + 4].bits, ctrl[g + 5].bits, ctrl[g + 6].bits, ctrl[g + 7].bits);
    VacantLane(LanesOf(MatchEmptyOrDeleted(GroupWord(ctrl, g))), ctrl, g, i);
  }

  lemma VacantLane(l: Lanes, ctrl: seq<Byte>, g: nat, i: nat)
    requires g + 8 <= |ctrl| && i < 8
    requires l == Lanes(High(ctrl[g].bits), High(ctrl[g + 1].bits), High(ctrl[g + 2].bits), High(ctrl[g + 3].bits),
                        High(ctrl[g + 4].bits), High(ctrl[g + 5].bits), High(ctrl[g + 6].bits), High(ctrl[g + 7].bits))
    ensures l.At(i) <==> !IsFull(ctrl[g + i])
  {
    hide High, IsFull;
    HighIsVacant(ctrl[g + i]);
  }

  lemma HighIsVacant(c: Byte)
    ensures High(c.bits) <==> !IsFull(c)
  {
  }
}
