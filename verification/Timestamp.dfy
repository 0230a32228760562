/** Timestamp text (section 5.6 of RFC 3339): what the emitter prints for seconds and nanoseconds, what the
    parser reads, and when it reads back what was printed. */
module Timestamp {
  import opened Ascii
  import opened Bits
  import opened Calendar
  import opened Decimal
  import opened Excerpts
  import opened Wrappers

  // Seconds since 1970-01-01T00:00:00Z, nanoseconds, and the offset of the local time in milliseconds.
  datatype Stamp = Stamp(seconds: int, nanos: nat, offsetMs: int)

  // ---------- the emitter ----------

  // The day and the second of the day, from C's division and remainder.
  function SplitDay(seconds: int): (int, int) {
    var days := TruncDiv(seconds, 86400);
    var rem := seconds - days * 86400;
    if rem < 0 then (days - 1, rem + 86400) else (days, rem)
  }

  lemma SplitDayMeans(seconds: int)
    ensures var s := SplitDay(seconds); 0 <= s.1 < 86400 && seconds == s.0 * 86400 + s.1
  {
  }

  // %04d
  function YearText(year: int): seq<byte> {
    if 0 <= year <= 9999 then Padded(year, 4)
    else if year > 9999 then Numeral(year)
    else if -year < 1000 then [MINUS] + Padded(-year, 3)
    else [MINUS] + Numeral(-year)
  }

  // The loop that drops trailing zeros, down to one digit.
  function TrimZeros(n: nat, digits: nat): (nat, nat) {
    if digits > 1 && n % 10 == 0 then TrimZeros(n / 10, digits - 1) else (n, digits)
  }

  function FractionText(nanos: nat): seq<byte> {
    if nanos == 0 then [] else var t := TrimZeros(nanos, 9); [DOT] + Padded(t.0, t.1)
  }

  predicate InRange(t: Date) { 1 <= t.month <= 12 && 1 <= t.day <= 31 }

  function DateText(t: Date): seq<byte>
    requires InRange(t)
  {
    YearText(t.year) + [MINUS] + Padded(t.month, 2) + [MINUS] + Padded(t.day, 2)
  }

  function TimeText(second: nat): seq<byte> {
    Padded(second / 3600, 2) + [COLON] + Padded(second % 3600 / 60, 2) + [COLON] + Padded(second % 60, 2)
  }

  function TimestampText(seconds: int, nanos: nat): seq<byte> {
    SplitDayMeans(seconds);
    var split := SplitDay(seconds);
    DayToDateAndBack(split.0);
    DateText(PrintedDate(split.0)) + [UPPER_T] + TimeText(split.1) + FractionText(nanos) + [UPPER_Z]
  }

  method EmitTimestamp(seconds: int, nanos: nat) returns (out: seq<byte>)
    ensures out == [QUOTE] + TimestampText(seconds, nanos) + [QUOTE]
  {
    hide CivilFromDays, Padded, YearText, TrimZeros;
    var split := SplitDay(seconds);
    SplitDayMeans(seconds);
    DayToDateAndBack(split.0);
    var date := PrintedDate(split.0);
    out := [QUOTE] + (DateText(date) + [UPPER_T] + TimeText(split.1));
    if nanos != 0 {
      var n, digits := nanos, 9;
      while digits > 1 && n % 10 == 0
        invariant digits <= 9 && TrimZeros(n, digits) == TrimZeros(nanos, 9)
      {
        TrimStep(n, digits);
        n, digits := n / 10, digits - 1;
      }
      TrimStep(n, digits);
      out := out + ([DOT] + Padded(n, digits));
    }
    out := out + [UPPER_Z] + [QUOTE];
  }

  lemma TrimStep(n: nat, digits: nat)
    ensures TrimZeros(n, digits) ==
            if digits > 1 && n % 10 == 0 then TrimZeros(n / 10, digits - 1) else (n, digits)
  {
  }

  // ---------- the parser ----------

  function Digits2(text: seq<byte>, pos: nat): Option<nat> {
    var a, b := DigitAt(text, pos), DigitAt(text, pos + 1);
    if a.None? || b.None? then None else Some(a.value * 10 + b.value)
  }

  function Digits4(text: seq<byte>, pos: nat): Option<nat> {
    var a, b, c, d := DigitAt(text, pos), DigitAt(text, pos + 1), DigitAt(text, pos + 2), DigitAt(text, pos + 3);
    if a.None? || b.None? || c.None? || d.None? then None
    else Some(a.value * 1000 + b.value * 100 + c.value * 10 + d.value)
  }

  // YYYY-MM-DD at the start
  function ParseDate(text: seq<byte>): Option<Date> {
    var year, month, day := Digits4(text, 0), Digits2(text, 5), Digits2(text, 8);
    if year.None? || CharAt(text, 4) != MINUS then None
    else if month.None? || month.value < 1 || month.value > 12 || CharAt(text, 7) != MINUS then None
    else if day.None? || day.value < 1 || day.value > MonthLength(year.value, month.value) then None
    else Some(Date(year.value, month.value, day.value))
  }

  // HH:MM:SS from position 11 on, in seconds; a leap second is let through
  function ParseTime(text: seq<byte>): Option<nat> {
    var hour, minute, second := Digits2(text, 11), Digits2(text, 14), Digits2(text, 17);
    if hour.None? || hour.value > 23 || CharAt(text, 13) != COLON then None
    else if minute.None? || minute.value > 59 || CharAt(text, 16) != COLON then None
    else if second.None? || second.value > 60 then None
    else Some(hour.value * 3600 + minute.value * 60 + second.value)
  }

  // A fraction of up to limit digits, filled up with zeros; further digits are skipped. The value and the
  // position after it.
  function ParseFraction(text: seq<byte>, pos: nat, limit: nat): (nat, nat) {
    if CharAt(text, pos) != DOT then (0, pos)
    else
      var r := ReadDigits(text, pos + 1, limit, 0);
      (Scaled(r.0, limit - r.1), AfterDigits(text, pos + 1 + r.1))
  }

  method ScanFraction(text: seq<byte>, start: nat, limit: nat) returns (value: nat, pos: nat)
    ensures (value, pos) == ParseFraction(text, start, limit)
  {
    if CharAt(text, start) != DOT {
      return 0, start;
    }
    var digits;
    value, digits := ScanDigits(text, start + 1, limit);
    pos := start + 1 + digits;
    ghost var read, count := value, digits;
    while digits < limit
      invariant digits <= limit && value == Scaled(read, digits - count) && count <= digits
    {
      value := value * 10;
      digits := digits + 1;
    }
    pos := SkipDigits(text, pos);
  }

  // The zone from pos on: seconds to take off, the offset in milliseconds, and the position after it.
  function ParseZone(text: seq<byte>, pos: nat): Option<(int, int, nat)> {
    var c := CharAt(text, pos);
    if c == UPPER_Z || c == 122 then Some((0, 0, pos + 1))
    else if c != PLUS && c != MINUS then Some((0, 0, pos))
    else
      var hour := Digits2(text, pos + 1);
      if hour.None? || hour.value > 23 then None
      else
        var p := if CharAt(text, pos + 3) == COLON then pos + 4 else pos + 3;
        var minute := if DigitAt(text, p).Some? then Digits2(text, p) else Some(0);
        if minute.None? || minute.value > 59 then None
        else
          var q := if DigitAt(text, p).Some? then p + 2 else p;
          var hasSecond := CharAt(text, q) == COLON && DigitAt(text, q + 1).Some?;
          var second := if hasSecond then Digits2(text, q + 1) else Some(0);
          if second.None? || second.value > 59 then None
          else
            var r := if hasSecond then q + 3 else if CharAt(text, q) == COLON then q + 1 else q;
            var fraction := ParseFraction(text, r, 3);
            var seconds := hour.value * 3600 + minute.value * 60 + second.value;
            var ms := seconds * 1000 + fraction.0;
            var sign := if c == MINUS then -1 else 1;
            if ms > 86400000 then None else Some((sign * seconds, sign * ms, fraction.1))
  }

  function ParseTimestamp(text: seq<byte>): Option<Stamp> {
    if |text| < 19 then None
    else
      var date, time := ParseDate(text), ParseTime(text);
      if date.None? || CharAt(text, 10) !in {UPPER_T, 116, 32} || time.None? then None
      else
        var fraction := ParseFraction(text, 19, 9);
        var zone := ParseZone(text, fraction.1);
        if zone.None? || zone.value.2 != |text| then None
        else Some(Stamp(DaysFromCivil(date.value) * 86400 + time.value - zone.value.0, fraction.0, zone.value.1))
  }

  method ReadZone(text: seq<byte>, start: nat) returns (r: Option<(int, int, nat)>)
    ensures r == ParseZone(text, start)
  {
    hide ParseFraction;
    var p := start;
    if p >= |text| { return Some((0, 0, p)); }
    if text[p] == UPPER_Z || text[p] == 122 { return Some((0, 0, p + 1)); }
    if text[p] != PLUS && text[p] != MINUS { return Some((0, 0, p)); }
    var neg := text[p] == MINUS;
    p := p + 1;
    var minute, second, ms: nat := 0, 0, 0;
    var hour := Digits2(text, p);
    if hour.None? || hour.value > 23 { return None; }
    p := p + 2;
    if CharAt(text, p) == COLON { p := p + 1; }
    if DigitAt(text, p).Some? {
      var two := Digits2(text, p);
      if two.None? || two.value > 59 { return None; }
      minute, p := two.value, p + 2;
    }
    if CharAt(text, p) == COLON {
      p := p + 1;
      if DigitAt(text, p).Some? {
        var two := Digits2(text, p);
        if two.None? || two.value > 59 { return None; }
        second, p := two.value, p + 2;
      }
    }
    ms, p := ScanFraction(text, p, 3);
    var seconds := hour.value * 3600 + minute * 60 + second;
    var offset := hour.value * 3600000 + minute * 60000 + second * 1000 + ms;
    if neg { seconds, offset := -seconds, -offset; }
    if offset < -86400000 || offset > 86400000 { return None; }
    return Some((seconds, offset, p));
  }

  // The parser, with its cursor.
  method ReadTimestamp(text: seq<byte>) returns (r: Option<Stamp>)
    ensures r == ParseTimestamp(text)
  {
    hide ParseFraction, ParseZone, DaysFromCivil;
    if |text| < 19 { return None; }
    var year := Digits4(text, 0);
    if year.None? || text[4] != MINUS { return None; }
    var month := Digits2(text, 5);
    if month.None? || month.value < 1 || month.value > 12 || text[7] != MINUS { return None; }
    var day := Digits2(text, 8);
    if day.None? || day.value < 1 || day.value > MonthLength(year.value, month.value) { return None; }
    if text[10] != UPPER_T && text[10] != 116 && text[10] != 32 { return None; }
    var hour := Digits2(text, 11);
    if hour.None? || hour.value > 23 || text[13] != COLON { return None; }
    var minute := Digits2(text, 14);
    if minute.None? || minute.value > 59 || text[16] != COLON { return None; }
    var second := Digits2(text, 17);
    if second.None? || second.value > 60 { return None; }
    var nanos, pos := ScanFraction(text, 19, 9);
    var zone := ReadZone(text, pos);
    if zone.None? || zone.value.2 != |text| { return None; }
    var days := DaysFromCivil(Date(year.value, month.value, day.value));
    var seconds := days * 86400 + hour.value * 3600 + minute.value * 60 + second.value - zone.value.0;
    return Some(Stamp(seconds, nanos, zone.value.1));
  }

  // ---------- round trip ----------

  lemma PaddedShort(n: nat)
    ensures Padded(n, 1) == [48 + n % 10] && Padded(n, 2) == [48 + n / 10 % 10, 48 + n % 10]
  {
    assert Padded(n, 1) == Padded(n / 10, 0) + [48 + n % 10];
    assert Padded(n, 2) == Padded(n / 10, 1) + [48 + n % 10];
  }

  lemma PaddedFour(n: nat)
    ensures var x := n / 10;
            var y := x / 10;
            Padded(n, 4) == [48 + y / 10 % 10, 48 + y % 10, 48 + x % 10, 48 + n % 10]
  {
    assert Padded(n, 4) == Padded(n / 10, 3) + [48 + n % 10];
    assert Padded(n / 10, 3) == Padded(n / 10 / 10, 2) + [48 + n / 10 % 10];
    PaddedShort(n / 10 / 10);
  }

  lemma FourDigits(n: nat)
    requires n < 10000
    ensures var x := n / 10;
            var y := x / 10;
            n == y / 10 % 10 * 1000 + y % 10 * 100 + x % 10 * 10 + n % 10
  {
    var x := n / 10;
    var y := x / 10;
    assert n == 10 * x + n % 10 && x == 10 * y + x % 10 && y == 10 * (y / 10) + y % 10 && y < 100;
  }

  lemma Read2(text: seq<byte>, pos: nat, n: nat)
    requires Here(text, pos, Padded(n, 2)) && n < 100
    ensures Digits2(text, pos) == Some(n) && |Padded(n, 2)| == 2
  {
    hide Here, Padded;
    PaddedShort(n);
    HereAt(text, pos, Padded(n, 2), 0);
    HereAt(text, pos, Padded(n, 2), 1);
  }

  lemma Read4(text: seq<byte>, pos: nat, n: nat)
    requires Here(text, pos, Padded(n, 4)) && n < 10000
    ensures Digits4(text, pos) == Some(n) && |Padded(n, 4)| == 4
  {
    hide Here, Padded;
    var p := Padded(n, 4);
    PaddedFour(n);
    FourDigits(n);
    HereAt(text, pos, p, 0);
    HereAt(text, pos, p, 1);
    HereAt(text, pos, p, 2);
    HereAt(text, pos, p, 3);
  }

  lemma DateRead(text: seq<byte>, t: Date)
    requires InRange(t) && 0 <= t.year <= 9999 && Here(text, 0, DateText(t))
    ensures |DateText(t)| == 10 && ParseDate(text) == if ValidDate(t) then Some(t) else None
  {
    hide Here, Padded, Digits2, Digits4, IsLeap;
    PaddedLength(t.year, 4);
    PaddedLength(t.month, 2);
    PaddedLength(t.day, 2);
    HereParts(text, 0, YearText(t.year) + [MINUS] + Padded(t.month, 2) + [MINUS], Padded(t.day, 2));
    HereParts(text, 0, YearText(t.year) + [MINUS] + Padded(t.month, 2), [MINUS]);
    HereParts(text, 0, YearText(t.year) + [MINUS], Padded(t.month, 2));
    HereParts(text, 0, YearText(t.year), [MINUS]);
    HereAt(text, 4, [MINUS], 0);
    HereAt(text, 7, [MINUS], 0);
    Read4(text, 0, t.year);
    Read2(text, 5, t.month);
    Read2(text, 8, t.day);
  }

  lemma TimeRead(text: seq<byte>, second: nat)
    requires second < 86400 && Here(text, 11, TimeText(second))
    ensures |TimeText(second)| == 8 && ParseTime(text) == Some(second)
  {
    hide Here, Padded, Digits2;
    var h, m, s := second / 3600, second % 3600 / 60, second % 60;
    PaddedLength(h, 2);
    PaddedLength(m, 2);
    PaddedLength(s, 2);
    HereParts(text, 11, Padded(h, 2) + [COLON] + Padded(m, 2) + [COLON], Padded(s, 2));
    HereParts(text, 11, Padded(h, 2) + [COLON] + Padded(m, 2), [COLON]);
    HereParts(text, 11, Padded(h, 2) + [COLON], Padded(m, 2));
    HereParts(text, 11, Padded(h, 2), [COLON]);
    HereAt(text, 13, [COLON], 0);
    HereAt(text, 16, [COLON], 0);
    Read2(text, 11, h);
    Read2(text, 14, m);
    Read2(text, 17, s);
    assert h * 3600 + m * 60 + s == second;
  }

  lemma {:induction false} TrimMeans(n: nat, digits: nat)
    requires n < Pow10(digits) && digits > 0
    ensures var t := TrimZeros(n, digits);
            0 < t.1 <= digits && t.0 < Pow10(t.1) && Scaled(t.0, digits - t.1) == n
  {
    if digits > 1 && n % 10 == 0 { TrimMeans(n / 10, digits - 1); }
  }

  // A printed fraction is read back, whatever zeros were dropped.
  lemma FractionRead(text: seq<byte>, pos: nat, nanos: nat)
    requires Here(text, pos, FractionText(nanos) + [UPPER_Z]) && nanos < 1_000_000_000
    ensures ParseFraction(text, pos, 9) == (nanos, pos + |FractionText(nanos)|)
    ensures CharAt(text, pos + |FractionText(nanos)|) == UPPER_Z
  {
    hide Here, Padded, TrimZeros, Scaled, Pow10, ReadDigits;
    HereParts(text, pos, FractionText(nanos), [UPPER_Z]);
    HereAt(text, pos + |FractionText(nanos)|, [UPPER_Z], 0);
    if nanos != 0 {
      Billion();
      TrimMeans(nanos, 9);
      var t := TrimZeros(nanos, 9);
      HereParts(text, pos, [DOT], Padded(t.0, t.1));
      HereAt(text, pos, [DOT], 0);
      PaddedLength(t.0, t.1);
      var end := pos + 1 + t.1;
      assert DigitAt(text, end) == None;
      DigitsThenEnd(text, pos + 1, t.0, t.1, 9);
    }
  }

  lemma Billion()
    ensures Pow10(9) == 1_000_000_000
  {
    assert Pow10(6) == 1_000_000;
  }

  // A padded numeral that no digit follows is read to its end.
  lemma DigitsThenEnd(text: seq<byte>, pos: nat, n: nat, w: nat, limit: nat)
    requires Here(text, pos, Padded(n, w)) && n < Pow10(w) && w <= limit && DigitAt(text, pos + w).None?
    ensures ReadDigits(text, pos, limit, 0) == (n, w)
  {
    hide Here, Padded, Pow10;
    ScaledZero(w);
    ReadPadded(text, pos, n, w, limit, 0);
  }

  // What the parser makes of the text printed for an instant: the instant of the printed date, if its year
  // has four digits and the year has that day.
  lemma TextRead(seconds: int, nanos: nat)
    requires nanos < 1_000_000_000
    ensures var split := SplitDay(seconds);
            var t := PrintedDate(split.0);
            ParseTimestamp(TimestampText(seconds, nanos)) ==
              if 0 <= t.year <= 9999 && ValidDate(t) then Some(Stamp(DaysFromCivil(t) * 86400 + split.1, nanos, 0))
              else None
  {
    hide Here, Padded, CivilFromDays, DaysFromCivil, ParseDate, ParseTime, ParseFraction, DateText, TimeText,
         FractionText, SplitDay, ToInt32, MarchYear, IsLeap;
    SplitDayMeans(seconds);
    var split := SplitDay(seconds);
    DayToDateAndBack(split.0);
    var date, text := PrintedDate(split.0), TimestampText(seconds, nanos);
    var a, b, c := DateText(date), TimeText(split.1), FractionText(nanos);
    assert text == a + ([UPPER_T] + (b + (c + [UPPER_Z])));
    WholeIsHere(text);
    HereParts(text, 0, a, [UPPER_T] + (b + (c + [UPPER_Z])));
    if 0 <= date.year <= 9999 {
      DateRead(text, date);
      HereParts(text, 10, [UPPER_T], b + (c + [UPPER_Z]));
      HereParts(text, 11, b, c + [UPPER_Z]);
      HereAt(text, 10, [UPPER_T], 0);
      TimeRead(text, split.1);
      FractionRead(text, 19, nanos);
    } else {
      OddYear(text, date);
    }
  }

  // The text printed for an instant is parsed back to it exactly when its year has four digits. In other
  // years it is read as another instant where the conversion to int leaves a date of the years 0 to 9999,
  // and refused where it does not.
  lemma TextParsedBack(seconds: int, nanos: nat)
    requires nanos < 1_000_000_000
    ensures var day := SplitDay(seconds).0;
            var r, t := ParseTimestamp(TimestampText(seconds, nanos)), PrintedDate(day);
            && (r == Some(Stamp(seconds, nanos, 0)) <==> 0 <= CivilFromDays(day).year <= 9999)
            && (r == None <==> !(0 <= t.year <= 9999 && ValidDate(t)))
  {
    hide CivilFromDays, DaysFromCivil, ParseTimestamp, TimestampText, ValidDate, SplitDay, ToInt32;
    TextRead(seconds, nanos);
    SplitDayMeans(seconds);
    var split := SplitDay(seconds);
    DayToDateAndBack(split.0);
    var t := PrintedDate(split.0);
    if 0 <= CivilFromDays(split.0).year <= 9999 { assert t == CivilFromDays(split.0); }
    if ValidDate(t) { DateToDayAndBack(t); }
  }

  // The first of March of the year 2^32 + 2024 fits in 64 bits and is read as that of 2024.
  lemma DistantYearAccepted()
    ensures var far, near := Date(0x1_0000_0000 + 2024, 3, 1), Date(2024, 3, 1);
            var seconds := DaysFromCivil(far) * 86400;
            && 0 < seconds < 0x7FFF_FFFF_FFFF_FFFF && seconds != DaysFromCivil(near) * 86400
            && ParseTimestamp(TimestampText(seconds, 0)) == Some(Stamp(DaysFromCivil(near) * 86400, 0, 0))
  {
    hide CivilFromDays, DaysFromCivil, ParseTimestamp, TimestampText, SplitDay;
    var far := Date(0x1_0000_0000 + 2024, 3, 1);
    DistantDays();
    Midnight(DaysFromCivil(far));
    DateToDayAndBack(far);
    TextRead(DaysFromCivil(far) * 86400, 0);
  }

  // The leap day of the year 2^32 + 100 is refused: it is printed with the year 100, which has none.
  lemma DistantLeapDayRefused()
    ensures var leap := Date(0x1_0000_0000 + 100, 2, 29);
            var seconds := DaysFromCivil(leap) * 86400;
            && ValidDate(leap) && 0 < seconds < 0x7FFF_FFFF_FFFF_FFFF
            && ParseTimestamp(TimestampText(seconds, 0)) == None
  {
    hide CivilFromDays, DaysFromCivil, ParseTimestamp, TimestampText, SplitDay;
    var leap := Date(0x1_0000_0000 + 100, 2, 29);
    DistantDays();
    Midnight(DaysFromCivil(leap));
    DateToDayAndBack(leap);
    TextRead(DaysFromCivil(leap) * 86400, 0);
  }

  lemma DistantDays()
    ensures DaysFromCivil(Date(2024, 3, 1)) == 19783
    ensures 1_000_000 < DaysFromCivil(Date(0x1_0000_0000 + 2024, 3, 1)) < 0x200_0000_0000
    ensures 1_000_000 < DaysFromCivil(Date(0x1_0000_0000 + 100, 2, 29)) < 0x200_0000_0000
  {
  }

  lemma Midnight(day: int)
    ensures SplitDay(day * 86400) == (day, 0)
  {
  }

  lemma {:induction false} NumeralLong(n: nat)
    requires n > 9999
    ensures |Numeral(n)| > 4 && forall i :: 0 <= i < |Numeral(n)| ==> 48 <= Numeral(n)[i] <= 57
  {
    NumeralDigits(n);
    assert Numeral(n / 10) == Numeral(n / 100) + [48 + n / 10 % 10];
    assert Numeral(n / 100) == Numeral(n / 1000) + [48 + n / 100 % 10];
    assert Numeral(n / 1000) == Numeral(n / 10000) + [48 + n / 1000 % 10];
    NumeralDigits(n / 10000);
  }

  // A year of five digits or with a sign is no year to the parser.
  lemma OddYear(text: seq<byte>, t: Date)
    requires InRange(t) && !(0 <= t.year <= 9999) && Here(text, 0, DateText(t))
    ensures ParseDate(text) == None
  {
    hide Padded, Numeral;
    var rest := [MINUS] + Padded(t.month, 2) + [MINUS] + Padded(t.day, 2);
    assert DateText(t) == YearText(t.year) + rest;
    HereParts(text, 0, YearText(t.year), rest);
    if t.year > 9999 {
      NumeralLong(t.year);
      HereAt(text, 0, YearText(t.year), 4);
    } else {
      HereAt(text, 0, YearText(t.year), 0);
    }
  }
}
