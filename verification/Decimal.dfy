/** Decimal numerals as printed by %0*d and %lld, and as read digit by digit. */
module Decimal {
  import opened Bits
  import opened Excerpts
  import opened Wrappers

  function DigitAt(text: seq<byte>, pos: nat): Option<nat> {
    if pos < |text| && 48 <= text[pos] <= 57 then Some(text[pos] - 48) else None
  }

  function Pow10(k: nat): nat { if k == 0 then 1 else 10 * Pow10(k - 1) }

  // x followed by k zeros
  function Scaled(x: nat, k: nat): nat { if k == 0 then x else 10 * Scaled(x, k - 1) }

  lemma {:induction false} ScaledZero(k: nat)
    ensures Scaled(0, k) == 0
  {
    if k > 0 { ScaledZero(k - 1); }
  }

  // The last w digits of n.
  function Padded(n: nat, w: nat): seq<byte> {
    if w == 0 then [] else Padded(n / 10, w - 1) + [48 + n % 10]
  }

  function Numeral(n: nat): seq<byte> {
    if n < 10 then [48 + n] else Numeral(n / 10) + [48 + n % 10]
  }

  lemma {:induction false} NumeralDigits(n: nat)
    ensures |Numeral(n)| > 0 && forall i :: 0 <= i < |Numeral(n)| ==> 48 <= Numeral(n)[i] <= 57
  {
    if n >= 10 { NumeralDigits(n / 10); }
  }

  lemma {:induction false} PaddedLength(n: nat, w: nat)
    ensures |Padded(n, w)| == w && forall i :: 0 <= i < w ==> 48 <= Padded(n, w)[i] <= 57
  {
    if w > 0 { PaddedLength(n / 10, w - 1); }
  }

  // Reads digits from pos on, at most limit of them: the value built on acc, and how many were read.
  function ReadDigits(text: seq<byte>, pos: nat, limit: nat, acc: nat): (r: (nat, nat))
    ensures r.1 <= limit && (r.1 > 0 ==> pos + r.1 <= |text|)
    decreases limit
  {
    if limit == 0 || DigitAt(text, pos).None? then (acc, 0)
    else
      var rest := ReadDigits(text, pos + 1, limit - 1, acc * 10 + DigitAt(text, pos).value);
      (rest.0, rest.1 + 1)
  }

  lemma PaddedStep(n: nat, w: nat)
    ensures w > 0 ==> Padded(n, w) == Padded(n / 10, w - 1) + [48 + n % 10] && Pow10(w) == 10 * Pow10(w - 1)
    ensures w == 0 ==> Padded(n, w) == [] && Pow10(w) == 1
  {
  }

  // Reading goes on after a padded numeral as if its value had been read.
  lemma {:induction false} ReadPadded(text: seq<byte>, pos: nat, n: nat, w: nat, limit: nat, acc: nat)
    requires Here(text, pos, Padded(n, w)) && n < Pow10(w) && w <= limit
    ensures var rest := ReadDigits(text, pos + w, limit - w, Scaled(acc, w) + n);
            ReadDigits(text, pos, limit, acc) == (rest.0, rest.1 + w)
    decreases w
  {
    hide Here, Pow10, Padded;
    PaddedStep(n, w);
    if w > 0 {
      HereParts<byte>(text, pos, Padded(n / 10, w - 1), [48 + n % 10]);
      PaddedLength(n / 10, w - 1);
      HereAt<byte>(text, pos + w - 1, [48 + n % 10], 0);
      ReadPadded(text, pos, n / 10, w - 1, limit, acc);
    }
  }

  // The loop over at most limit digits.
  method ScanDigits(text: seq<byte>, start: nat, limit: nat) returns (value: nat, count: nat)
    ensures (value, count) == ReadDigits(text, start, limit, 0)
  {
    value, count := 0, 0;
    while count < limit && DigitAt(text, start + count).Some?
      invariant count <= limit
      invariant var rest := ReadDigits(text, start + count, limit - count, value);
                ReadDigits(text, start, limit, 0) == (rest.0, rest.1 + count)
      decreases limit - count
    {
      value := value * 10 + DigitAt(text, start + count).value;
      count := count + 1;
    }
  }

  // The first position from pos on that holds no digit.
  function AfterDigits(text: seq<byte>, pos: nat): (r: nat)
    ensures pos <= r && (pos <= |text| ==> r <= |text|)
    decreases |text| - pos
  {
    if DigitAt(text, pos).Some? then AfterDigits(text, pos + 1) else pos
  }

  method SkipDigits(text: seq<byte>, start: nat) returns (pos: nat)
    ensures pos == AfterDigits(text, start)
  {
    pos := start;
    while DigitAt(text, pos).Some?
      invariant AfterDigits(text, pos) == AfterDigits(text, start)
      decreases |text| - pos
    {
      pos := pos + 1;
    }
  }
}
