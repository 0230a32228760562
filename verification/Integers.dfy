/** Integer literals: the digit loops over a 64-bit accumulator, whose overflow test does not notice every
    wrap-around, and what that means for the literals that are accepted. */
module Integers {
  import opened Ascii
  import opened Bits
  import opened Wrappers

  const WORD: nat := 0x1_0000_0000_0000_0000
  const I64_MAX: nat := 0x7FFF_FFFF_FFFF_FFFF

  predicate IsBase(base: nat) { base == 10 || base == 16 }

  // bebop__digit_val, where it is below the base
  function Digit(c: byte, base: nat): (d: Option<nat>)
    requires IsBase(base)
    ensures d.Some? ==> d.value < base
  {
    if 48 <= c <= 57 then Some(c - 48)
    else if base == 16 && 65 <= c <= 70 then Some(c - 55)
    else if base == 16 && 97 <= c <= 102 then Some(c - 87)
    else None
  }

  function DigitsEnd(text: seq<byte>, pos: nat, base: nat): (end: nat)
    requires pos <= |text| && IsBase(base)
    ensures pos <= end <= |text|
    decreases |text| - pos
  {
    if pos == |text| || Digit(text[pos], base).None? then pos else DigitsEnd(text, pos + 1, base)
  }

  // The number that the digits between two positions denote.
  function NumberOf(text: seq<byte>, from: nat, to: nat, base: nat): nat
    requires from <= to <= |text| && IsBase(base)
  {
    if from == to || Digit(text[to - 1], base).None? then 0
    else NumberOf(text, from, to - 1, base) * base + Digit(text[to - 1], base).value
  }

  // The accumulator after these digits, and whether it ever became smaller.
  function Accumulated(text: seq<byte>, from: nat, to: nat, base: nat): (r: (nat, bool))
    requires from <= to <= |text| && IsBase(base)
    ensures r.0 < WORD
  {
    if from == to || Digit(text[to - 1], base).None? then (0, false)
    else
      var before := Accumulated(text, from, to - 1, base);
      var acc := (before.0 * base + Digit(text[to - 1], base).value) % WORD;
      (acc, before.1 || acc < before.0)
  }

  method ScanDigits(text: seq<byte>, start: nat, base: nat) returns (acc: nat, overflow: bool, pos: nat)
    requires start <= |text| && IsBase(base)
    ensures pos == DigitsEnd(text, start, base) && (acc, overflow) == Accumulated(text, start, pos, base)
  {
    acc, overflow, pos := 0, false, start;
    while pos < |text| && Digit(text[pos], base).Some?
      invariant start <= pos <= |text| && DigitsEnd(text, start, base) == DigitsEnd(text, pos, base)
      invariant (acc, overflow) == Accumulated(text, start, pos, base)
      decreases |text| - pos
    {
      var previous := acc;
      acc := (acc * base + Digit(text[pos], base).value) % WORD;
      if acc < previous { overflow := true; }
      pos := pos + 1;
    }
  }

  lemma {:induction false} NoWrapBelow(text: seq<byte>, from: nat, to: nat, base: nat)
    requires from <= to <= |text| && IsBase(base) && NumberOf(text, from, to, base) < WORD
    ensures Accumulated(text, from, to, base) == (NumberOf(text, from, to, base), false)
  {
    if from < to && Digit(text[to - 1], base).Some? { NoWrapBelow(text, from, to - 1, base); }
  }

  // ---------- whole literals ----------

  // Where the digits of a literal start, and their base.
  function Prefix(text: seq<byte>): (r: (nat, nat))
    ensures r.0 <= |text| && IsBase(r.1)
  {
    var p := if text != [] && (text[0] == MINUS || text[0] == PLUS) then 1 else 0;
    var hex := p + 2 <= |text| && text[p] == DIGIT_0 && (text[p + 1] == LETTER_X || text[p + 1] == 88);
    if hex then (p + 2, 16) else (p, 10)
  }

  // A sign or none, and then digits of its base up to the end, at least one.
  predicate IsLiteral(text: seq<byte>) {
    var p := Prefix(text);
    p.0 < |text| && DigitsEnd(text, p.0, p.1) == |text| && Digit(text[p.0], p.1).Some?
  }

  function LiteralNumber(text: seq<byte>): int {
    var p := Prefix(text);
    var n := NumberOf(text, p.0, |text|, p.1);
    if text != [] && text[0] == MINUS then 0 - n else n
  }

  function ParseInt(text: seq<byte>): Option<int> {
    if !IsLiteral(text) then None
    else
      var p := Prefix(text);
      var r := Accumulated(text, p.0, |text|, p.1);
      if r.1 then None
      else if text[0] == MINUS then if r.0 > I64_MAX + 1 then None else Some(0 - r.0)
      else if r.0 > I64_MAX then None
      else Some(r.0)
  }

  // The parser of integer literals.
  method ReadInt(text: seq<byte>) returns (r: Option<int>)
    ensures r == ParseInt(text)
  {
    if |text| == 0 { return None; }
    var p, neg := 0, false;
    if text[0] == MINUS {
      neg, p := true, 1;
    } else if text[0] == PLUS {
      p := 1;
    }
    if p >= |text| { return None; }
    var base := 10;
    if p + 2 <= |text| && text[p] == DIGIT_0 && (text[p + 1] == LETTER_X || text[p + 1] == 88) {
      p, base := p + 2, 16;
      if p >= |text| || Digit(text[p], 16).None? { return None; }
    } else if Digit(text[p], 10).None? {
      return None;
    }
    var value, overflow, end := ScanDigits(text, p, base);
    if end != |text| || overflow { return None; }
    if neg {
      if value > I64_MAX + 1 { return None; }
      return Some(-value);
    }
    if value > I64_MAX { return None; }
    return Some(value);
  }

  // A literal is read as the number it denotes exactly when that fits in 64 bits, with its sign.
  lemma IntegerRead(text: seq<byte>)
    requires IsLiteral(text)
    ensures ParseInt(text) == Some(LiteralNumber(text)) <==> -(I64_MAX as int) - 1 <= LiteralNumber(text) <= I64_MAX
  {
    var p := Prefix(text);
    if NumberOf(text, p.0, |text|, p.1) < WORD { NoWrapBelow(text, p.0, |text|, p.1); }
  }

  // Nothing but a literal is accepted.
  lemma OnlyLiterals(text: seq<byte>)
    ensures ParseInt(text).Some? ==> IsLiteral(text)
  {
  }

  // Beyond that the overflow test can fail: 42 * 10^18 wraps around to a larger accumulator and is accepted.
  lemma WrapUnnoticed(text: seq<byte>)
    requires text == [52, 50] + Zeros(18)
    ensures LiteralNumber(text) == 42_000_000_000_000_000_000 > WORD
    ensures ParseInt(text) == Some(5_106_511_852_580_896_768)
  {
    hide FortyTwo;
    AllDigits(text, 0);
    FirstDigits(text, 17);
    FirstDigits(text, 18);
    PowersOfTen();
    assert Prefix(text) == (0, 10) && IsLiteral(text);
    NoWrapBelow(text, 0, 19, 10);
    assert Digit(text[19], 10) == Some(0);
    assert Accumulated(text, 0, 20, 10) == (5_106_511_852_580_896_768, false);
  }

  lemma PowersOfTen()
    ensures FortyTwo(17) == 4_200_000_000_000_000_000 && FortyTwo(18) == 42_000_000_000_000_000_000
  {
    assert FortyTwo(6) == 42_000_000;
    assert FortyTwo(12) == 42_000_000_000_000;
  }

  function Zeros(n: nat): seq<byte> { seq(n, _ => DIGIT_0) }

  lemma {:induction false} AllDigits(text: seq<byte>, pos: nat)
    requires pos <= |text| && forall i :: pos <= i < |text| ==> 48 <= text[i] <= 57
    ensures DigitsEnd(text, pos, 10) == |text|
    decreases |text| - pos
  {
    if pos < |text| { AllDigits(text, pos + 1); }
  }

  // 42 followed by n zeros
  function FortyTwo(n: nat): nat { if n == 0 then 42 else FortyTwo(n - 1) * 10 }

  lemma {:induction false} FirstDigits(text: seq<byte>, n: nat)
    requires text == [52, 50] + Zeros(18) && n <= 18
    ensures NumberOf(text, 0, n + 2, 10) == FortyTwo(n)
  {
    if n == 0 {
      assert NumberOf(text, 0, 1, 10) == 4;
    } else {
      FirstDigits(text, n - 1);
      assert Digit(text[n + 1], 10) == Some(0);
    }
  }
}
