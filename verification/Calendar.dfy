/** The calendar arithmetic of timestamps: the emitter's date from a day number and the parser's day number
    from a date are inverse, on all days and all valid dates, and follow the proleptic Gregorian calendar. */
module Calendar {
  import opened Arithmetic

  // C's division, which rounds toward zero.
  function TruncDiv(a: int, b: int): int
    requires b > 0
  {
    if a >= 0 then a / b else -((-a) / b)
  }

  datatype Date = Date(year: int, month: int, day: int)

  predicate IsLeap(year: int) { (year % 4 == 0 && year % 100 != 0) || year % 400 == 0 }

  function MonthLength(year: int, month: int): int
    requires 1 <= month <= 12
  {
    if month == 2 then if IsLeap(year) then 29 else 28
    else if month == 4 || month == 6 || month == 9 || month == 11 then 30
    else 31
  }

  predicate ValidDate(t: Date) { 1 <= t.month <= 12 && 1 <= t.day <= MonthLength(t.year, t.month) }

  // bebop__util_days_from_civil: days since 1970-01-01
  function DaysFromCivil(t: Date): int {
    var y := if t.month <= 2 then t.year - 1 else t.year;
    var era := TruncDiv(if y >= 0 then y else y - 399, 400);
    var yoe := y - era * 400;
    var doy := TruncDiv(153 * (t.month + if t.month > 2 then -3 else 9) + 2, 5) + t.day - 1;
    var doe := yoe * 365 + TruncDiv(yoe, 4) - TruncDiv(yoe, 100) + doy;
    era * 146097 + doe - 719468
  }

  // The date of a number of days since 1970-01-01, as the emitter computes it.
  function CivilFromDays(sinceEpoch: int): Date {
    var days := sinceEpoch + 719468;
    var era := TruncDiv(if days >= 0 then days else days - 146096, 146097);
    var doe := days - era * 146097;
    var yoe := TruncDiv(doe - TruncDiv(doe, 1460) + TruncDiv(doe, 36524) - TruncDiv(doe, 146096), 365);
    var y := yoe + era * 400;
    var doy := doe - (365 * yoe + TruncDiv(yoe, 4) - TruncDiv(yoe, 100));
    var mp := TruncDiv(5 * doy + 2, 153);
    var d := doy - TruncDiv(153 * mp + 2, 5) + 1;
    var m := mp + if mp < 10 then 3 else -9;
    Date(y + if m <= 2 then 1 else 0, m, d)
  }

  // The year that the month's date counts from in a calendar whose years begin in March.
  function MarchYear(t: Date): int { if t.month <= 2 then t.year - 1 else t.year }

  // C's conversion of a 64-bit value to int, as implementations define it.
  function ToInt32(x: int): (r: int)
    ensures -0x8000_0000 <= r < 0x8000_0000 && (-0x8000_0000 <= x < 0x8000_0000 ==> r == x)
  {
    (x + 0x8000_0000) % 0x1_0000_0000 - 0x8000_0000
  }

  // The date that is printed: the emitter converts the March-based year to int.
  function PrintedDate(sinceEpoch: int): Date {
    var t := CivilFromDays(sinceEpoch);
    Date(ToInt32(MarchYear(t)) + if t.month <= 2 then 1 else 0, t.month, t.day)
  }

  // ---------- within an era of 400 years that begin in March ----------

  function YearStart(yoe: int): int { 365 * yoe + yoe / 4 - yoe / 100 }

  // The length of year yoe, which ends with the February of year yoe + 1.
  function YearLength(yoe: int): int { if IsLeap(yoe + 1) then 366 else 365 }

  function YearOf(doe: int): int { (doe - doe / 1460 + doe / 36524 - doe / 146096) / 365 }

  // c centuries, q groups of four years, r years
  lemma YearOfParts(c: int, q: int, r: int, doy: int)
    requires 0 <= c < 4 && 0 <= q < 25 && 0 <= r < 4 && 0 <= doy <= 365
    requires doy == 365 ==> r == 3 && (q < 24 || c == 3)
    ensures YearOf(36524 * c + 1461 * q + 365 * r + doy) == 100 * c + 4 * q + r
    ensures YearStart(100 * c + 4 * q + r) == 36524 * c + 1461 * q + 365 * r
  {
    hide IsLeap;
    var doe := 36524 * c + 1461 * q + 365 * r + doy;
    var e := (24 * c + q + 365 * r + doy) / 1460;
    assert doe / 1460 == 25 * c + q + e;
    StartOfParts(c, q, r);
    assert 0 <= e <= 1 && (e == 1 ==> r == 3 && doy >= 269) && (doy == 365 ==> e == 1);
    if doe == 146096 {
      assert doe / 36524 - doe / 146096 == 3;
    } else {
      assert doe / 36524 == c && doe / 146096 == 0;
    }
  }

  lemma StartOfParts(c: int, q: int, r: int)
    requires 0 <= c < 4 && 0 <= q < 25 && 0 <= r < 4
    ensures YearStart(100 * c + 4 * q + r) == 36524 * c + 1461 * q + 365 * r
  {
  }

  lemma PartsOfYear(yoe: int) returns (c: int, q: int, r: int)
    requires 0 <= yoe < 400
    ensures 0 <= c < 4 && 0 <= q < 25 && 0 <= r < 4 && yoe == 100 * c + 4 * q + r
    ensures IsLeap(yoe + 1) <==> r == 3 && (q < 24 || c == 3)
  {
    c, q, r := yoe / 100, yoe % 100 / 4, yoe % 4;
    assert yoe % 100 % 4 == r;
  }

  // The year computed from a day of the era is the year that day was put in.
  lemma YearOfDay(yoe: int, doy: int)
    requires 0 <= yoe < 400 && 0 <= doy < YearLength(yoe)
    ensures YearOf(YearStart(yoe) + doy) == yoe && 0 <= YearStart(yoe) + doy < 146097
  {
    var c, q, r := PartsOfYear(yoe);
    YearOfParts(c, q, r, doy);
  }

  // Every day of the era lies in the year computed for it.
  lemma DayInYear(doe: int)
    requires 0 <= doe < 146097
    ensures 0 <= YearOf(doe) < 400 && 0 <= doe - YearStart(YearOf(doe)) < YearLength(YearOf(doe))
  {
    var c := if doe == 146096 then 3 else doe / 36524;
    var rest := doe - 36524 * c;
    var q := if rest / 1461 == 25 then 24 else rest / 1461;
    var left := rest - 1461 * q;
    var r := if left / 365 == 4 then 3 else left / 365;
    var doy := left - 365 * r;
    YearOfParts(c, q, r, doy);
    LeapParts(c, q, r);
  }

  lemma LeapParts(c: int, q: int, r: int)
    requires 0 <= c < 4 && 0 <= q < 25 && 0 <= r < 4
    ensures IsLeap(100 * c + 4 * q + r + 1) <==> r == 3 && (q < 24 || c == 3)
  {
  }

  // ---------- within a year that begins in March ----------

  function MonthStart(mp: int): int { (153 * mp + 2) / 5 }

  // March is month 0.
  function MarchMonth(month: int): int { month + if month > 2 then -3 else 9 }

  lemma DayInMonth(year: int, doy: int)
    requires 0 <= doy < if IsLeap(year) then 366 else 365
    ensures var mp := (5 * doy + 2) / 153;
            var m := mp + if mp < 10 then 3 else -9;
            0 <= mp < 12 && MarchMonth(m) == mp
            && 1 <= m <= 12 && 1 <= doy - MonthStart(mp) + 1 <= MonthLength(if m <= 2 then year else year - 1, m)
  {
  }

  lemma MonthOfDay(year: int, month: int, day: int)
    requires 1 <= month <= 12 && 1 <= day <= MonthLength(year, month)
    ensures var doy := MonthStart(MarchMonth(month)) + day - 1;
            (5 * doy + 2) / 153 == MarchMonth(month) && 0 <= doy < if month <= 2 && IsLeap(year) then 366 else 365
  {
  }

  // ---------- the two functions in floor arithmetic ----------

  lemma TruncIsFloor(a: int, b: int)
    requires b > 0
    ensures a >= 0 ==> TruncDiv(a, b) == a / b
    ensures TruncDiv(if a >= 0 then a else a - (b - 1), b) == a / b
  {
    if a < 0 {
      var q, r := a / b, a % b;
      assert a == q * b + r && -(a - (b - 1)) == (-q) * b + (b - 1 - r);
      DivMod(-(a - (b - 1)), b, -q, b - 1 - r);
    }
  }

  lemma DaysFloor(t: Date)
    requires ValidDate(t)
    ensures var y := MarchYear(t);
            DaysFromCivil(t) ==
              y / 400 * 146097 + YearStart(y % 400) + MonthStart(MarchMonth(t.month)) + t.day - 1 - 719468
  {
    hide IsLeap;
    var y := MarchYear(t);
    TruncIsFloor(y, 400);
    TruncIsFloor(y % 400, 4);
    TruncIsFloor(y % 400, 100);
    TruncIsFloor(153 * MarchMonth(t.month) + 2, 5);
  }

  lemma CivilFloor(z: int)
    ensures var days := z + 719468;
            var era, doe := days / 146097, days % 146097;
            var y := YearOf(doe) + era * 400;
            var doy := doe - YearStart(YearOf(doe));
            var mp := (5 * doy + 2) / 153;
            var m := mp + if mp < 10 then 3 else -9;
            CivilFromDays(z) == Date(y + if m <= 2 then 1 else 0, m, doy - MonthStart(mp) + 1)
  {
    hide TruncDiv;
    var days := z + 719468;
    TruncIsFloor(days, 146097);
    var doe := days % 146097;
    EraYear(doe);
    var doy := doe - YearStart(YearOf(doe));
    DayInYear(doe);
    TruncIsFloor(5 * doy + 2, 153);
    TruncIsFloor(153 * ((5 * doy + 2) / 153) + 2, 5);
  }

  lemma EraYear(doe: int)
    requires 0 <= doe < 146097
    ensures var yoe := TruncDiv(doe - TruncDiv(doe, 1460) + TruncDiv(doe, 36524) - TruncDiv(doe, 146096), 365);
            yoe == YearOf(doe) && 365 * yoe + TruncDiv(yoe, 4) - TruncDiv(yoe, 100) == YearStart(yoe)
  {
    hide TruncDiv, YearLength;
    TruncIsFloor(doe, 1460);
    TruncIsFloor(doe, 36524);
    TruncIsFloor(doe, 146096);
    DayInYear(doe);
    var days := doe - doe / 1460 + doe / 36524 - doe / 146096;
    assert YearOf(doe) == days / 365;
    assert days >= 0;
    TruncIsFloor(days, 365);
    TruncIsFloor(YearOf(doe), 4);
    TruncIsFloor(YearOf(doe), 100);
  }

  lemma LeapInEra(y: int)
    ensures IsLeap(y + 1) == IsLeap(y % 400 + 1)
  {
    var e, u := y / 400, y % 400;
    assert y + 1 == 400 * e + (u + 1);
    ModShift(u + 1, 100 * e, 4);
    ModShift(u + 1, 4 * e, 100);
    ModShift(u + 1, e, 400);
  }

  lemma ModShift(v: int, k: int, m: int)
    requires m > 0
    ensures (m * k + v) % m == v % m
  {
    DivMod(m * k + v, m, k + v / m, v % m);
  }

  // ---------- the inverse ----------

  // Every day number has a valid date, and the parser's day number of that date is the day.
  lemma DayToDateAndBack(z: int)
    ensures ValidDate(CivilFromDays(z)) && DaysFromCivil(CivilFromDays(z)) == z
  {
    hide CivilFromDays, DaysFromCivil, IsLeap;
    var days := z + 719468;
    var era, doe := days / 146097, days % 146097;
    var yoe := YearOf(doe);
    var doy := doe - YearStart(yoe);
    CivilFloor(z);
    DayInYear(doe);
    var y := yoe + era * 400;
    EraOf(y, era, yoe);
    LeapInEra(y);
    DayInMonth(y + 1, doy);
    DaysFloor(CivilFromDays(z));
  }

  lemma EraOf(y: int, era: int, yoe: int)
    requires y == yoe + era * 400 && 0 <= yoe < 400
    ensures y / 400 == era && y % 400 == yoe
  {
  }

  // Every valid date is the date of its day number.
  lemma DateToDayAndBack(t: Date)
    requires ValidDate(t)
    ensures CivilFromDays(DaysFromCivil(t)) == t
  {
    hide CivilFromDays, DaysFromCivil, IsLeap, YearOf;
    var y := MarchYear(t);
    var era, yoe := y / 400, y % 400;
    var doy := MonthStart(MarchMonth(t.month)) + t.day - 1;
    DaysFloor(t);
    MonthOfDay(t.year, t.month, t.day);
    LeapInEra(y);
    YearOfDay(yoe, doy);
    var doe := YearStart(yoe) + doy;
    CivilFloor(DaysFromCivil(t));
    assert DaysFromCivil(t) + 719468 == doe + era * 146097;
    DayOfEra(doe, era);
  }

  lemma DayOfEra(doe: int, era: int)
    requires 0 <= doe < 146097
    ensures (doe + era * 146097) / 146097 == era && (doe + era * 146097) % 146097 == doe
  {
  }

  // ---------- the calendar itself ----------

  function NextDay(t: Date): Date
    requires ValidDate(t)
  {
    if t.day < MonthLength(t.year, t.month) then t.(day := t.day + 1)
    else if t.month < 12 then Date(t.year, t.month + 1, 1)
    else Date(t.year + 1, 1, 1)
  }

  // Day 0 is 1970-01-01, and the next day of the calendar has the next number.
  lemma FollowsTheCalendar(t: Date)
    requires ValidDate(t)
    ensures DaysFromCivil(Date(1970, 1, 1)) == 0
    ensures ValidDate(NextDay(t)) && DaysFromCivil(NextDay(t)) == DaysFromCivil(t) + 1
  {
    hide DaysFromCivil, IsLeap, YearStart;
    var next := NextDay(t);
    DaysFloor(t);
    DaysFloor(next);
    Epoch();
    if t.month == 2 && t.day == MonthLength(t.year, 2) {
      LeapInEra(MarchYear(t));
      NewYear(MarchYear(t));
    } else if t.month != 2 {
      MonthEnds(t.month);
    }
  }

  lemma Epoch()
    ensures DaysFromCivil(Date(1970, 1, 1)) == 0
  {
  }

  lemma MonthEnds(month: int)
    requires 1 <= month <= 12 && month != 2
    ensures MonthStart(MarchMonth(if month < 12 then month + 1 else 1)) ==
            MonthStart(MarchMonth(month)) + MonthLength(1, month)
  {
  }

  // From the last of February to the first of March.
  lemma NewYear(y: int)
    ensures (y + 1) / 400 * 146097 + YearStart((y + 1) % 400)
         == y / 400 * 146097 + YearStart(y % 400) + YearLength(y % 400)
  {
    if y % 400 == 399 {
      EraOf(y + 1, y / 400 + 1, 0);
    } else {
      EraOf(y + 1, y / 400, y % 400 + 1);
      NextYearStart(y % 400);
    }
  }

  lemma NextYearStart(yoe: int)
    requires 0 <= yoe < 399
    ensures YearStart(yoe + 1) == YearStart(yoe) + YearLength(yoe)
  {
    hide YearStart, IsLeap;
    var c, q, r := PartsOfYear(yoe);
    StartOfParts(c, q, r);
    if r < 3 {
      StartOfParts(c, q, r + 1);
    } else if q < 24 {
      StartOfParts(c, q + 1, 0);
    } else {
      StartOfParts(c + 1, 0, 0);
    }
  }
}
