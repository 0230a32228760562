/** Duration text: what the emitter prints for seconds and nanoseconds, what the parser reads, and when it
    reads back what was printed. */
module Duration {
  import opened Arithmetic
  import opened Ascii
  import opened Bits
  import opened Decimal
  import opened Excerpts
  import opened Wrappers
  import Calendar

  const BILLION: nat := 1_000_000_000
  const I64_MAX: nat := 0x7FFF_FFFF_FFFF_FFFF

  datatype Unit = Hours | Minutes | Seconds | Millis | Micros | Nanos

  // nanoseconds in a unit
  function Scale(u: Unit): nat {
    match u
    case Hours => 3_600_000_000_000
    case Minutes => 60_000_000_000
    case Seconds => 1_000_000_000
    case Millis => 1_000_000
    case Micros => 1_000
    case Nanos => 1
  }

  // nanoseconds in so many units
  function Amount(count: nat, u: Unit): nat { count * Scale(u) }

  function UnitText(u: Unit): seq<byte> {
    match u
    case Hours => [LETTER_H]
    case Minutes => [LETTER_M]
    case Seconds => [LETTER_S]
    case Millis => [LETTER_M, LETTER_S]
    case Micros => [LETTER_U, LETTER_S]
    case Nanos => [LETTER_N, LETTER_S]
  }

  // ---------- the emitter ----------

  datatype Part = Part(count: nat, unit: Unit)

  function Abs(x: int): nat { if x < 0 then -x else x }

  function PartText(p: Part): seq<byte> { Numeral(p.count) + UnitText(p.unit) }

  function PartsText(parts: seq<Part>): seq<byte> {
    if parts == [] then [] else PartText(parts[0]) + PartsText(parts[1..])
  }

  function Present(p: Part, force: bool): seq<Part> { if p.count > 0 || force then [p] else [] }

  // The parts printed for s seconds and n nanoseconds: those that are not zero, or zero seconds.
  function PartsOf(s: nat, n: nat): seq<Part> {
    Present(Part(s / 3600, Hours), false) + Present(Part(s % 3600 / 60, Minutes), false)
    + Present(Part(s % 60, Seconds), s / 60 == 0 && n == 0)
    + Present(Part(n / 1_000_000, Millis), false) + Present(Part(n % 1_000_000 / 1000, Micros), false)
    + Present(Part(n % 1000, Nanos), false)
  }

  function DurationText(seconds: int, nanos: int): seq<byte> {
    (if seconds < 0 || nanos < 0 then [MINUS] else []) + PartsText(PartsOf(Abs(seconds), Abs(nanos)))
  }

  lemma {:induction false} PartsTextJoin(a: seq<Part>, b: seq<Part>)
    ensures PartsText(a + b) == PartsText(a) + PartsText(b)
  {
    hide PartText;
    if a == [] {
      assert a + b == b;
    } else {
      assert (a + b)[1..] == a[1..] + b;
      PartsTextJoin(a[1..], b);
    }
  }

  method EmitPart(out: seq<byte>, count: nat, unit: Unit, force: bool) returns (r: seq<byte>)
    ensures r == out + PartsText(Present(Part(count, unit), force))
  {
    if count > 0 || force {
      assert [Part(count, unit)][1..] == [];
      return out + PartText(Part(count, unit));
    }
    return out;
  }

  lemma SixtyFacts(s: nat)
    ensures s % 3600 % 60 == s % 60
    ensures s / 3600 == 0 && s % 3600 / 60 == 0 <==> s / 60 == 0
  {
  }

  method EmitParts(s: nat, n: nat) returns (body: seq<byte>)
    ensures body == PartsText(PartsOf(s, n))
  {
    hide PartsText, Present, PartsOf;
    var hours, rest := s / 3600, s % 3600;
    var minutes, secs := rest / 60, rest % 60;
    SixtyFacts(s);
    body := [];
    body := EmitPart(body, hours, Hours, false);
    body := EmitPart(body, minutes, Minutes, false);
    body := EmitPart(body, secs, Seconds, hours == 0 && minutes == 0 && n == 0);
    body := EmitPart(body, n / 1_000_000, Millis, false);
    body := EmitPart(body, n % 1_000_000 / 1000, Micros, false);
    body := EmitPart(body, n % 1000, Nanos, false);
    PartsOfText(s, n);
  }

  method EmitDuration(seconds: int, nanos: int) returns (out: seq<byte>)
    ensures out == [QUOTE] + DurationText(seconds, nanos) + [QUOTE]
  {
    hide PartsText, PartsOf;
    var s, n := seconds, nanos;
    var sign := [];
    if s < 0 || n < 0 {
      sign := [MINUS];
      s := if s < 0 then -s else s;
      n := if n < 0 then -n else n;
    }
    var body := EmitParts(s, n);
    out := [QUOTE] + (sign + body) + [QUOTE];
  }

  lemma PartsOfText(s: nat, n: nat)
    ensures PartsText(PartsOf(s, n)) ==
              PartsText(Present(Part(s / 3600, Hours), false))
              + PartsText(Present(Part(s % 3600 / 60, Minutes), false))
              + PartsText(Present(Part(s % 60, Seconds), s / 60 == 0 && n == 0))
              + PartsText(Present(Part(n / 1_000_000, Millis), false))
              + PartsText(Present(Part(n % 1_000_000 / 1000, Micros), false))
              + PartsText(Present(Part(n % 1000, Nanos), false))
  {
    hide PartsText, Present;
    var h, m := Present(Part(s / 3600, Hours), false), Present(Part(s % 3600 / 60, Minutes), false);
    var c := Present(Part(s % 60, Seconds), s / 60 == 0 && n == 0);
    var i, u := Present(Part(n / 1_000_000, Millis), false), Present(Part(n % 1_000_000 / 1000, Micros), false);
    var o := Present(Part(n % 1000, Nanos), false);
    PartsTextJoin(h, m);
    PartsTextJoin(h + m, c);
    PartsTextJoin(h + m + c, i);
    PartsTextJoin(h + m + c + i, u);
    PartsTextJoin(h + m + c + i + u, o);
  }

  // ---------- the parser ----------

  // The digits from pos on, after count digits of value val; None when the value leaves 64 bits.
  function ReadValue(text: seq<byte>, pos: nat, val: nat, count: nat): (r: Option<(nat, nat, nat)>)
    ensures r.Some? ==> r.value.1 >= pos && r.value.2 == count + (r.value.1 - pos)
    ensures r.Some? && pos <= |text| ==> r.value.1 <= |text|
    decreases |text| - pos
  {
    var d := DigitAt(text, pos);
    if d.None? then Some((val, pos, count))
    else if val > (U64_MAX - d.value) / 10 then None
    else ReadValue(text, pos + 1, val * 10 + d.value, count + 1)
  }

  // A fraction in billionths, whether it has digits, and the position after it.
  function ReadFraction(text: seq<byte>, pos: nat): (r: (nat, bool, nat))
    ensures r.2 >= pos && (pos <= |text| ==> r.2 <= |text|)
  {
    if CharAt(text, pos) != DOT then (0, false, pos)
    else
      var r := ReadDigits(text, pos + 1, 9, 0);
      (Scaled(r.0, 9 - r.1), true, AfterDigits(text, pos + 1 + r.1))
  }

  // The unit from pos on, and the position after it. Upper case is let through except for u and n.
  function ReadUnit(text: seq<byte>, pos: nat): (r: Option<(Unit, nat)>)
    ensures r.Some? && pos < |text| ==> pos < r.value.1 <= |text|
  {
    var c := CharAt(text, pos);
    var long := CharAt(text, pos + 1) == LETTER_S || CharAt(text, pos + 1) == 83;
    if c == LETTER_H || c == 72 then Some((Hours, pos + 1))
    else if c == LETTER_M || c == 77 then Some(if long then (Millis, pos + 2) else (Minutes, pos + 1))
    else if c == LETTER_S || c == 83 then Some((Seconds, pos + 1))
    else if c == LETTER_U then Some((Micros, if long then pos + 2 else pos + 1))
    else if c == LETTER_N then Some((Nanos, if long then pos + 2 else pos + 1))
    else None
  }

  // A fraction of a unit, rounded down to nanoseconds.
  function FractionNanos(frac: nat, u: Unit): nat {
    if Scale(u) >= BILLION then frac * (Scale(u) / BILLION) else frac / (BILLION / Scale(u))
  }

  // The nanoseconds from pos on, added to total. had says whether a part was read before. A trailing
  // number without a unit counts as seconds when it stands alone and is ignored otherwise.
  function ReadParts(text: seq<byte>, pos: nat, total: nat, had: bool): Option<nat>
    requires pos <= |text| && total <= I64_MAX
    decreases |text| - pos
  {
    if pos == |text| then if had then Some(total) else None
    else
      var v := ReadValue(text, pos, 0, 0);
      if v.None? then None
      else
        var frac := ReadFraction(text, v.value.1);
        if v.value.2 == 0 && !frac.1 then None
        else if frac.2 >= |text| then
          if had then Some(total)
          else if v.value.0 > I64_MAX / BILLION || frac.0 > I64_MAX - v.value.0 * BILLION then None
          else Some(v.value.0 * BILLION + frac.0)
        else
          var u := ReadUnit(text, frac.2);
          if u.None? then None
          else
            if v.value.0 > I64_MAX / Scale(u.value.0) then None
            else
              var whole := Amount(v.value.0, u.value.0);
              var part := if frac.1 then FractionNanos(frac.0, u.value.0) else 0;
              if part > I64_MAX - whole || whole + part > I64_MAX - total then None
              else ReadParts(text, u.value.1, total + whole + part, true)
  }

  // Seconds and nanoseconds of a total, by C's division and remainder, after the final repair of signs.
  function SplitTotal(total: int): (int, int) {
    var s := Calendar.TruncDiv(total, BILLION);
    var n := total - s * BILLION;
    if n < 0 && s > 0 then (s - 1, n + BILLION)
    else if n > 0 && s < 0 then (s + 1, n - BILLION)
    else (s, n)
  }

  // The repair is never needed: quotient and remainder of a total have the same sign.
  lemma RepairUnneeded(total: int)
    ensures var s := Calendar.TruncDiv(total, BILLION);
            var n := total - s * BILLION;
            !(n < 0 && s > 0) && !(n > 0 && s < 0) && SplitTotal(total) == (s, n)
            && Abs(s) == Abs(total) / BILLION && Abs(n) == Abs(total) % BILLION
            && (total >= 0 ==> s >= 0 && n >= 0) && (total <= 0 ==> s <= 0 && n <= 0)
  {
  }

  function Signed(total: nat, neg: bool): int { if neg then 0 - total else total }

  function ParseDuration(text: seq<byte>): Option<(int, int)> {
    if text == [] then None
    else
      var neg := text[0] == MINUS;
      var pos := if neg || text[0] == PLUS then 1 else 0;
      if pos >= |text| then None
      else
        var total := ReadParts(text, pos, 0, false);
        if total.None? then None else Some(SplitTotal(Signed(total.value, neg)))
  }

  // ---------- the parser's loops ----------

  method ScanValue(text: seq<byte>, start: nat) returns (r: Option<(nat, nat, nat)>)
    ensures r == ReadValue(text, start, 0, 0)
  {
    var pos, val: nat, count: nat := start, 0, 0;
    while DigitAt(text, pos).Some?
      invariant ReadValue(text, start, 0, 0) == ReadValue(text, pos, val, count)
      decreases |text| - pos
    {
      var d := DigitAt(text, pos).value;
      if val > (U64_MAX - d) / 10 { return None; }
      val, count, pos := val * 10 + d, count + 1, pos + 1;
    }
    return Some((val, pos, count));
  }

  method ReadDuration(text: seq<byte>) returns (r: Option<(int, int)>)
    ensures r == ParseDuration(text)
  {
    hide ReadValue, ReadFraction, ReadUnit, FractionNanos, Scale, Amount, SplitTotal;
    if text == [] { return None; }
    var neg, pos := text[0] == MINUS, 0;
    if neg || text[0] == PLUS { pos := 1; }
    if pos >= |text| { return None; }
    ghost var first := pos;
    var total: nat, had := 0, false;
    while pos < |text|
      invariant first <= pos <= |text| && total <= I64_MAX
      invariant ReadParts(text, first, 0, false) == ReadParts(text, pos, total, had)
      decreases |text| - pos
    {
      var v := ScanValue(text, pos);
      if v.None? { return None; }
      var frac := ReadFraction(text, v.value.1);
      if v.value.2 == 0 && !frac.1 { return None; }
      if frac.2 >= |text| {
        if !had {
          if v.value.0 > I64_MAX / BILLION || frac.0 > I64_MAX - v.value.0 * BILLION { return None; }
          total, had := v.value.0 * BILLION + frac.0, true;
        }
        return Some(SplitTotal(Signed(total, neg)));
      }
      var u := ReadUnit(text, frac.2);
      if u.None? { return None; }
      ScalePositive(u.value.0);
      if v.value.0 > I64_MAX / Scale(u.value.0) { return None; }
      InRange(v.value.0, u.value.0);
      var add := Amount(v.value.0, u.value.0);
      if frac.1 {
        var part := FractionNanos(frac.0, u.value.0);
        if part > I64_MAX - add { return None; }
        add := add + part;
      }
      if add > I64_MAX - total { return None; }
      total, had, pos := total + add, true, u.value.1;
    }
    if !had { return None; }
    return Some(SplitTotal(Signed(total, neg)));
  }

  lemma ScalePositive(u: Unit)
    ensures Scale(u) > 0
  {
  }

  // A count fits in nanoseconds exactly when it is at most the quotient.
  lemma InRange(v: nat, u: Unit)
    ensures Scale(u) > 0 && (v > I64_MAX / Scale(u) <==> Amount(v, u) > I64_MAX)
  {
    ScalePositive(u);
    QuotientBound(I64_MAX, Scale(u), v);
  }

  lemma QuotientBound(m: nat, k: nat, v: nat)
    requires k > 0
    ensures v > m / k <==> v * k > m
  {
    var q := m / k;
    assert q * k <= m < q * k + k;
    if v > q { MulMonotone(q + 1, v, k); } else { MulMonotone(v, q, k); }
  }

  // ---------- round trip ----------

  // A numeral is read to its end when it fits 64 bits, and refused when it does not.
  lemma {:induction false} NumeralRead(text: seq<byte>, pos: nat, n: nat)
    requires Here(text, pos, Numeral(n))
    ensures pos + |Numeral(n)| <= |text| && |Numeral(n)| > 0
    ensures ReadValue(text, pos, 0, 0) ==
              if n <= U64_MAX then ReadValue(text, pos + |Numeral(n)|, n, |Numeral(n)|) else None
  {
    hide Here;
    if n < 10 {
      HereAt(text, pos, Numeral(n), 0);
    } else {
      HereParts<byte>(text, pos, Numeral(n / 10), [48 + n % 10]);
      NumeralRead(text, pos, n / 10);
      HereAt<byte>(text, pos + |Numeral(n / 10)|, [48 + n % 10], 0);
    }
  }

  lemma UnitRead(text: seq<byte>, pos: nat, u: Unit)
    requires Here(text, pos, UnitText(u))
    requires var c := CharAt(text, pos + |UnitText(u)|); c != LETTER_S && c != 83
    ensures ReadUnit(text, pos) == Some((u, pos + |UnitText(u)|)) && pos + |UnitText(u)| <= |text|
    ensures ReadFraction(text, pos) == (0, false, pos)
    ensures forall v: nat, n: nat :: v <= U64_MAX ==> ReadValue(text, pos, v, n) == Some((v, pos, n))
  {
    hide Here;
    HereAt(text, pos, UnitText(u), 0);
    if |UnitText(u)| == 2 { HereAt(text, pos, UnitText(u), 1); }
  }

  // One printed part is read as its nanoseconds, as long as the total stays in range.
  lemma PartRead(text: seq<byte>, pos: nat, p: Part, total: nat, had: bool)
    requires Here(text, pos, PartText(p)) && total <= I64_MAX
    requires var c := CharAt(text, pos + |PartText(p)|); c != LETTER_S && c != 83
    ensures |PartText(p)| > 0 && pos + |PartText(p)| <= |text|
    ensures ReadParts(text, pos, total, had) ==
              if total + Amount(p.count, p.unit) > I64_MAX then None
              else ReadParts(text, pos + |PartText(p)|, total + Amount(p.count, p.unit), true)
  {
    hide Here, Numeral, UnitText, ReadUnit, ReadValue, ReadFraction, FractionNanos, Scale, Amount, DigitAt, CharAt;
    HereParts(text, pos, Numeral(p.count), UnitText(p.unit));
    NumeralRead(text, pos, p.count);
    var q := pos + |Numeral(p.count)|;
    UnitRead(text, q, p.unit);
    UnitNonEmpty(p.unit);
    ScalePositive(p.unit);
    InRange(p.count, p.unit);
    if p.count > U64_MAX { BigCount(p.count, p.unit); }
  }

  lemma UnitNonEmpty(u: Unit)
    ensures |UnitText(u)| > 0
  {
  }

  lemma BigCount(count: nat, u: Unit)
    requires count > U64_MAX
    ensures Amount(count, u) > I64_MAX
  {
    ScalePositive(u);
    MulMonotone(1, Scale(u), count);
  }

  function TotalOf(parts: seq<Part>): nat {
    if parts == [] then 0 else Amount(parts[0].count, parts[0].unit) + TotalOf(parts[1..])
  }

  // Printed parts are read one after the other, until their total goes out of range.
  lemma {:induction false} PartsRead(text: seq<byte>, pos: nat, parts: seq<Part>, total: nat, had: bool)
    requires Here(text, pos, PartsText(parts)) && total <= I64_MAX
    requires var c := CharAt(text, pos + |PartsText(parts)|); c != LETTER_S && c != 83
    ensures var end := pos + |PartsText(parts)|;
            end <= |text| && ReadParts(text, pos, total, had) ==
              if total + TotalOf(parts) > I64_MAX then None
              else ReadParts(text, end, total + TotalOf(parts), had || parts != [])
    decreases |parts|
  {
    hide Here, PartText, Amount, ReadParts;
    HereLength(text, pos, PartsText(parts));
    if parts != [] {
      var p, rest := parts[0], parts[1..];
      HereParts(text, pos, PartText(p), PartsText(rest));
      var q := pos + |PartText(p)|;
      NextStartsWithDigit(text, q, rest);
      PartRead(text, pos, p, total, had);
      if total + Amount(p.count, p.unit) <= I64_MAX {
        PartsRead(text, q, rest, total + Amount(p.count, p.unit), true);
      }
    }
  }

  lemma EndRead(text: seq<byte>, pos: nat, total: nat)
    requires pos == |text| && total <= I64_MAX
    ensures ReadParts(text, pos, total, true) == Some(total)
  {
  }

  lemma NextStartsWithDigit(text: seq<byte>, pos: nat, parts: seq<Part>)
    requires Here(text, pos, PartsText(parts))
    requires var c := CharAt(text, pos + |PartsText(parts)|); c != LETTER_S && c != 83
    ensures CharAt(text, pos) != LETTER_S && CharAt(text, pos) != 83
  {
    hide Here, Numeral;
    if parts != [] {
      NumeralDigits(parts[0].count);
      HereAt(text, pos, PartsText(parts), 0);
    }
  }

  // A number without a unit that stands behind the parts of a duration is ignored.
  lemma TrailingNumberIgnored(parts: seq<Part>, n: nat)
    requires parts != [] && n <= U64_MAX
    ensures ParseDuration(PartsText(parts) + Numeral(n)) == ParseDuration(PartsText(parts))
  {
    hide Here, PartsText, ReadParts, TotalOf, SplitTotal, Numeral;
    var text, longer := PartsText(parts), PartsText(parts) + Numeral(n);
    FirstIsDigit(parts);
    WholeIsHere(text);
    PartsRead(text, 0, parts, 0, false);
    WholeIsHere(longer);
    HereParts(longer, 0, text, Numeral(n));
    NumeralDigits(n);
    HereAt(longer, |text|, Numeral(n), 0);
    PartsRead(longer, 0, parts, 0, false);
    if TotalOf(parts) <= I64_MAX {
      EndRead(text, |text|, TotalOf(parts));
      NumberAtEnd(longer, |text|, n, TotalOf(parts));
    }
  }

  lemma NothingAtEnd(text: seq<byte>, val: nat, count: nat)
    requires val <= U64_MAX
    ensures ReadValue(text, |text|, val, count) == Some((val, |text|, count))
    ensures ReadFraction(text, |text|) == (0, false, |text|)
  {
  }

  lemma NumberAtEnd(text: seq<byte>, pos: nat, n: nat, total: nat)
    requires Here(text, pos, Numeral(n)) && pos + |Numeral(n)| == |text| && n <= U64_MAX && total <= I64_MAX
    ensures ReadParts(text, pos, total, true) == Some(total)
  {
    hide Here, Numeral, ReadUnit, FractionNanos, Scale, Amount, ReadDigits, Scaled;
    NumeralRead(text, pos, n);
    NothingAtEnd(text, n, |Numeral(n)|);
  }

  lemma {:induction false} TotalJoin(a: seq<Part>, b: seq<Part>)
    ensures TotalOf(a + b) == TotalOf(a) + TotalOf(b)
  {
    hide Amount;
    if a == [] {
      assert a + b == b;
    } else {
      assert (a + b)[1..] == a[1..] + b;
      TotalJoin(a[1..], b);
    }
  }

  lemma TotalPresent(p: Part, force: bool)
    ensures TotalOf(Present(p, force)) == Amount(p.count, p.unit)
  {
    hide Scale;
    assert [p][1..] == [];
  }

  // The printed parts add up to the duration.
  lemma PartsTotal(s: nat, n: nat)
    ensures TotalOf(PartsOf(s, n)) == s * BILLION + n && PartsOf(s, n) != []
  {
    hide TotalOf;
    var h, m := Part(s / 3600, Hours), Part(s % 3600 / 60, Minutes);
    var c, force := Part(s % 60, Seconds), s / 60 == 0 && n == 0;
    var i, u, o := Part(n / 1_000_000, Millis), Part(n % 1_000_000 / 1000, Micros), Part(n % 1000, Nanos);
    TotalPresent(h, false);
    TotalPresent(m, false);
    TotalPresent(c, force);
    TotalPresent(i, false);
    TotalPresent(u, false);
    TotalPresent(o, false);
    var a := Present(h, false) + Present(m, false);
    TotalJoin(Present(h, false), Present(m, false));
    TotalJoin(a, Present(c, force));
    TotalJoin(a + Present(c, force), Present(i, false));
    TotalJoin(a + Present(c, force) + Present(i, false), Present(u, false));
    TotalJoin(a + Present(c, force) + Present(i, false) + Present(u, false), Present(o, false));
    Splits(s, n);
  }

  lemma Splits(s: nat, n: nat)
    ensures Amount(s / 3600, Hours) + Amount(s % 3600 / 60, Minutes) + Amount(s % 60, Seconds) == s * BILLION
    ensures Amount(n / 1_000_000, Millis) + Amount(n % 1_000_000 / 1000, Micros) + Amount(n % 1000, Nanos) == n
    ensures s / 3600 == 0 && s % 3600 / 60 == 0 && s % 60 == 0 ==> s / 60 == 0
  {
    var h, rest := s / 3600, s % 3600;
    assert s == 3600 * h + rest && rest == 60 * (rest / 60) + rest % 60;
    assert rest % 60 == s % 60;
    var m, left := n / 1_000_000, n % 1_000_000;
    assert n == 1_000_000 * m + left && left == 1000 * (left / 1000) + left % 1000;
    assert left % 1000 == n % 1000;
  }

  predicate SignsAgree(seconds: int, nanos: int) {
    (seconds >= 0 && nanos >= 0) || (seconds <= 0 && nanos <= 0)
  }

  // The text printed for a duration is parsed back to it exactly when its parts agree in sign, the
  // nanoseconds are less than a second, and its total fits the parser's signed 64-bit count of nanoseconds.
  lemma TextParsedBack(seconds: int, nanos: int)
    ensures ParseDuration(DurationText(seconds, nanos)) == Some((seconds, nanos)) <==>
              SignsAgree(seconds, nanos) && Abs(nanos) < BILLION && Abs(seconds) * BILLION + Abs(nanos) <= I64_MAX
  {
    TextTotal(seconds, nanos);
    SplitBack(seconds, nanos);
  }

  // What the parser makes of the printed text: its exact total with its sign, unless that is too large.
  lemma TextTotal(seconds: int, nanos: int)
    ensures var total := Abs(seconds) * BILLION + Abs(nanos);
            ParseDuration(DurationText(seconds, nanos)) ==
            if total > I64_MAX then None else Some(SplitTotal(Signed(total, seconds < 0 || nanos < 0)))
  {
    hide Here, PartsText, ReadParts, PartsOf, TotalOf, SplitTotal;
    var parts, text := PartsOf(Abs(seconds), Abs(nanos)), DurationText(seconds, nanos);
    var sign := if seconds < 0 || nanos < 0 then [MINUS] else [];
    PartsTotal(Abs(seconds), Abs(nanos));
    WholeIsHere(text);
    HereParts(text, 0, sign, PartsText(parts));
    FirstIsDigit(parts);
    if sign == [] { assert text == PartsText(parts); }
    PartsRead(text, |sign|, parts, 0, false);
    if TotalOf(parts) <= I64_MAX { EndRead(text, |text|, TotalOf(parts)); }
  }

  lemma SplitBack(seconds: int, nanos: int)
    ensures SplitTotal(Signed(Abs(seconds) * BILLION + Abs(nanos), seconds < 0 || nanos < 0)) == (seconds, nanos) <==>
              SignsAgree(seconds, nanos) && Abs(nanos) < BILLION
  {
    hide SplitTotal;
    RepairUnneeded(Signed(Abs(seconds) * BILLION + Abs(nanos), seconds < 0 || nanos < 0));
  }

  lemma FirstIsDigit(parts: seq<Part>)
    requires parts != []
    ensures |PartsText(parts)| > 0 && 48 <= PartsText(parts)[0] <= 57
  {
    hide Numeral;
    NumeralDigits(parts[0].count);
  }
}
