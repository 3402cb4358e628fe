/**
 The editor's date field: `2006-01-02T15:04` in the Author's zone, here a fixed
 offset from UTC. Dates are proleptic Gregorian. Instants and offsets are
 microseconds, the resolution the database keeps; instant 0 is 1970-01-01T00:00Z.
 */
module Calendar {
  import opened Wrappers
  import opened Text

  const MINUTE := 60_000_000
  const MINUTES_PER_DAY := 1440
  // Days from 0000-01-01 to 1970-01-01.
  const EPOCH_DAYS := 719528

  // ---------------------------------------------------------------------------
  // Days and civil dates.

  datatype Date = Date(year: int, month: int, day: int)

  predicate IsLeap(y: int) {
    y % 4 == 0 && (y % 100 != 0 || y % 400 == 0)
  }

  function DaysInMonth(y: int, m: int): int {
    if m == 2 then (if IsLeap(y) then 29 else 28)
    else if m == 4 || m == 6 || m == 9 || m == 11 then 30
    else 31
  }

  predicate IsDate(d: Date) {
    1 <= d.month <= 12 && 1 <= d.day <= DaysInMonth(d.year, d.month)
  }

  function YearLength(y: int): int {
    if IsLeap(y) then 366 else 365
  }

  // Days from 0000-01-01 to January 1st of year y.
  function DaysBeforeYear(y: nat): nat {
    if y == 0 then 0 else DaysBeforeYear(y - 1) + YearLength(y - 1)
  }

  lemma EveryFourth(y: nat)
    ensures (y + 4) / 4 == (y + 3) / 4 + if y % 4 == 0 then 1 else 0
  {
  }

  lemma EveryHundredth(y: nat)
    ensures (y + 100) / 100 == (y + 99) / 100 + if y % 100 == 0 then 1 else 0
  {
  }

  lemma EveryFourHundredth(y: nat)
    ensures (y + 400) / 400 == (y + 399) / 400 + if y % 400 == 0 then 1 else 0
  {
  }

  lemma Multiples(k: nat)
    ensures (100 * k) % 4 == 0 && (400 * k) % 100 == 0
  {
    assert 100 * k == 4 * (25 * k) && 400 * k == 100 * (4 * k);
  }

  lemma Divisibility(y: nat)
    ensures y % 100 == 0 ==> y % 4 == 0
    ensures y % 400 == 0 ==> y % 100 == 0
  {
    Multiples(y / 100);
    Multiples(y / 400);
  }

  function One(b: bool): nat {
    if b then 1 else 0
  }

  lemma LeapCount(y: nat)
    ensures YearLength(y) == 365 + One(y % 4 == 0) - One(y % 100 == 0) + One(y % 400 == 0)
  {
    Divisibility(y);
  }

  // The Gregorian rule as a count of leap years.
  function LeapYears(y: nat): int {
    (y + 3) / 4 - (y + 99) / 100 + (y + 399) / 400
  }

  lemma NextLeapYears(y: nat)
    ensures LeapYears(y + 1) == LeapYears(y) + One(y % 4 == 0) - One(y % 100 == 0) + One(y % 400 == 0)
  {
    EveryFourth(y);
    EveryHundredth(y);
    EveryFourHundredth(y);
  }

  lemma {:induction false} LeapYearsBefore(y: nat)
    ensures DaysBeforeYear(y) == 365 * y + LeapYears(y)
  {
    if y > 0 {
      LeapYearsBefore(y - 1);
      LeapCount(y - 1);
      NextLeapYears(y - 1);
    }
  }

  // Days from January 1st to the first of month m.
  function DaysBeforeMonth(y: int, m: int): int
    requires 1 <= m <= 13
    decreases m
  {
    if m == 1 then 0 else DaysBeforeMonth(y, m - 1) + DaysInMonth(y, m - 1)
  }

  // The same in closed form, with no table of month lengths.
  function MonthOffset(y: int, m: int): int {
    (367 * m - 362) / 12 - (if m <= 2 then 0 else if IsLeap(y) then 1 else 2)
  }

  lemma {:induction false} MonthStart(y: int, m: int)
    requires 1 <= m <= 13
    ensures DaysBeforeMonth(y, m) == MonthOffset(y, m)
    decreases m
  {
    if m > 1 {
      MonthStart(y, m - 1);
      assert m == 2 || m == 3 || m == 4 || m == 5 || m == 6 || m == 7 || m == 8
          || m == 9 || m == 10 || m == 11 || m == 12 || m == 13;
    }
  }

  function DaysOfDate(d: Date): int
    requires d.year >= 0 && IsDate(d)
  {
    DaysBeforeYear(d.year) + DaysBeforeMonth(d.year, d.month) + d.day - 1
  }

  // The day number of every date, in closed form.
  lemma DaysOfDateClosed(d: Date)
    requires d.year >= 0 && IsDate(d)
    ensures DaysOfDate(d) == 365 * d.year + LeapYears(d.year) + MonthOffset(d.year, d.month) + d.day - 1
  {
    LeapYearsBefore(d.year);
    MonthStart(d.year, d.month);
  }

  // The month holding the given day of the year, looking from month m on.
  function MonthFrom(y: int, m: int, yday: int): (int, int)
    requires 1 <= m <= 12
    decreases 12 - m
  {
    if m == 12 || yday < DaysInMonth(y, m) then (m, yday + 1)
    else MonthFrom(y, m + 1, yday - DaysInMonth(y, m))
  }

  // The year holding the given day, looking from year y on.
  function DateFrom(y: nat, days: nat): Date
    decreases days
  {
    if days < YearLength(y) then
      var (month, day) := MonthFrom(y, 1, days);
      Date(y, month, day)
    else DateFrom(y + 1, days - YearLength(y))
  }

  function DateOfDays(days: nat): Date {
    DateFrom(0, days)
  }

  lemma {:induction false} YearEnds(y: int)
    ensures DaysBeforeMonth(y, 13) == YearLength(y)
  {
    assert DaysBeforeMonth(y, 4) == 31 + DaysInMonth(y, 2) + 31;
    assert DaysBeforeMonth(y, 7) == DaysBeforeMonth(y, 4) + 91;
    assert DaysBeforeMonth(y, 10) == DaysBeforeMonth(y, 7) + 92;
    assert DaysBeforeMonth(y, 13) == DaysBeforeMonth(y, 10) + 92;
  }

  lemma {:induction false} MonthFound(y: int, m: int, yday: int)
    requires 1 <= m <= 12 && 0 <= yday < DaysBeforeMonth(y, 13) - DaysBeforeMonth(y, m)
    ensures var (month, day) := MonthFrom(y, m, yday);
            && m <= month <= 12 && 1 <= day <= DaysInMonth(y, month)
            && DaysBeforeMonth(y, month) + day - 1 == DaysBeforeMonth(y, m) + yday
    decreases 12 - m
  {
    assert DaysBeforeMonth(y, m + 1) == DaysBeforeMonth(y, m) + DaysInMonth(y, m);
    if !(m == 12 || yday < DaysInMonth(y, m)) {
      MonthFound(y, m + 1, yday - DaysInMonth(y, m));
    }
  }

  lemma {:induction false} DateFound(y: nat, days: nat)
    ensures var d := DateFrom(y, days);
            d.year >= y && IsDate(d) && DaysOfDate(d) == DaysBeforeYear(y) + days
    decreases days
  {
    if days < YearLength(y) {
      YearEnds(y);
      MonthFound(y, 1, days);
    } else {
      DateFound(y + 1, days - YearLength(y));
    }
  }

  // Every day is a date, and converting back gives the day.
  lemma DaysRoundTrip(days: nat)
    ensures var d := DateOfDays(days);
            d.year >= 0 && IsDate(d) && DaysOfDate(d) == days
  {
    DateFound(0, days);
  }

  lemma {:induction false} MonthsOrdered(y: int, m: int, n: int)
    requires 1 <= m <= n <= 13
    ensures DaysBeforeMonth(y, m) <= DaysBeforeMonth(y, n)
    ensures m < n ==> DaysBeforeMonth(y, m) + DaysInMonth(y, m) <= DaysBeforeMonth(y, n)
    decreases n - m
  {
    if m < n {
      MonthsOrdered(y, m + 1, n);
    }
  }

  lemma {:induction false} YearsOrdered(y: nat, z: nat)
    requires y <= z
    ensures DaysBeforeYear(y) <= DaysBeforeYear(z)
    ensures y < z ==> DaysBeforeYear(y) + YearLength(y) <= DaysBeforeYear(z)
    decreases z - y
  {
    if y < z {
      YearsOrdered(y + 1, z);
    }
  }

  lemma DayWithinYear(d: Date)
    requires d.year >= 0 && IsDate(d)
    ensures DaysBeforeYear(d.year) <= DaysOfDate(d) < DaysBeforeYear(d.year) + YearLength(d.year)
  {
    MonthsOrdered(d.year, 1, d.month);
    MonthsOrdered(d.year, d.month, 13);
    YearEnds(d.year);
  }

  // Different dates are different days.
  lemma DatesAreDistinctDays(d: Date, e: Date)
    requires d.year >= 0 && e.year >= 0 && IsDate(d) && IsDate(e)
    requires DaysOfDate(d) == DaysOfDate(e)
    ensures d == e
  {
    DayWithinYear(d);
    DayWithinYear(e);
    if d.year < e.year { YearsOrdered(d.year, e.year); }
    if e.year < d.year { YearsOrdered(e.year, d.year); }
    if d.month < e.month { MonthsOrdered(d.year, d.month, e.month); }
    if e.month < d.month { MonthsOrdered(d.year, e.month, d.month); }
  }

  // So the conversion from days is the inverse on dates as well.
  lemma DateRoundTrip(d: Date)
    requires d.year >= 0 && IsDate(d)
    ensures DaysOfDate(d) >= 0 && DateOfDays(DaysOfDate(d)) == d
  {
    DayWithinYear(d);
    YearsOrdered(0, d.year);
    DaysRoundTrip(DaysOfDate(d));
    DatesAreDistinctDays(DateOfDays(DaysOfDate(d)), d);
  }

  // ---------------------------------------------------------------------------
  // The field's text.

  datatype Civil = Civil(date: Date, hour: int, minute: int)

  predicate IsCivil(c: Civil) {
    IsDate(c.date) && 0 <= c.hour < 24 && 0 <= c.minute < 60
  }

  // Minutes from 0000-01-01T00:00.
  function MinutesOfCivil(c: Civil): int
    requires c.date.year >= 0 && IsCivil(c)
  {
    (DaysOfDate(c.date) * 24 + c.hour) * 60 + c.minute
  }

  function CivilOfMinutes(minutes: nat): Civil {
    Civil(DateOfDays(minutes / 60 / 24), minutes / 60 % 24, minutes % 60)
  }

  lemma ClockParts(days: int, hour: int, minute: int)
    requires 0 <= hour < 24 && 0 <= minute < 60
    ensures var minutes := (days * 24 + hour) * 60 + minute;
            minutes / 60 == days * 24 + hour && minutes % 60 == minute
    ensures (days * 24 + hour) / 24 == days && (days * 24 + hour) % 24 == hour
  {
  }

  lemma MinutesRoundTrip(minutes: nat)
    ensures var c := CivilOfMinutes(minutes);
            c.date.year >= 0 && IsCivil(c) && MinutesOfCivil(c) == minutes
  {
    var hours := minutes / 60;
    DaysRoundTrip(hours / 24);
    assert minutes == hours * 60 + minutes % 60 && hours == hours / 24 * 24 + hours % 24;
  }

  lemma CivilOfParts(days: nat, hour: int, minute: int, minutes: nat)
    requires 0 <= hour < 24 && 0 <= minute < 60 && minutes == (days * 24 + hour) * 60 + minute
    ensures CivilOfMinutes(minutes) == Civil(DateOfDays(days), hour, minute)
  {
    ClockParts(days, hour, minute);
  }

  lemma CivilRoundTrip(c: Civil)
    requires c.date.year >= 0 && IsCivil(c)
    ensures MinutesOfCivil(c) >= 0 && CivilOfMinutes(MinutesOfCivil(c)) == c
  {
    DateRoundTrip(c.date);
    var days: nat := DaysOfDate(c.date);
    CivilOfParts(days, c.hour, c.minute, (days * 24 + c.hour) * 60 + c.minute);
  }

  function TwoDigits(n: int): string
    requires 0 <= n < 100
  {
    [Digit(n / 10), Digit(n % 10)]
  }

  // `Format` for years 0 to 9999.
  function PrintCivil(c: Civil): string
    requires IsCivil(c) && 0 <= c.date.year <= 9999
  {
    Laid(TwoDigits(c.date.year / 100), TwoDigits(c.date.year % 100),
         TwoDigits(c.date.month), TwoDigits(c.date.day), TwoDigits(c.hour), TwoDigits(c.minute))
  }

  function DigitsAt(s: string, i: nat, n: nat): Option<int>
    decreases n
  {
    if n == 0 then Some(0)
    else if i + n > |s| || !IsDigit(s[i + n - 1]) then None
    else
      match DigitsAt(s, i, n - 1)
      case None => None
      case Some(high) => Some(10 * high + DigitValue(s[i + n - 1]))
  }

  // The layout's hour takes one digit or two; every other field has a fixed width.
  function HourWidth(s: string): nat {
    if 12 < |s| && IsDigit(s[12]) then 2 else 1
  }

  // `time.Parse` with the layout "2006-01-02T15:04": nothing may be left over, and
  // the day must exist in its month.
  function ParseCivil(s: string): Option<Civil> {
    var w := HourWidth(s);
    if |s| != 14 + w || s[4] != '-' || s[7] != '-' || s[10] != 'T' || s[11 + w] != ':' then None
    else
      match (DigitsAt(s, 0, 4), DigitsAt(s, 5, 2), DigitsAt(s, 8, 2), DigitsAt(s, 11, w), DigitsAt(s, 12 + w, 2))
      case (Some(year), Some(month), Some(day), Some(hour), Some(minute)) =>
        var c := Civil(Date(year, month, day), hour, minute);
        if IsCivil(c) then Some(c) else None
      case _ => None
  }

  lemma TwoDigitsParsed(s: string, i: nat, n: int)
    requires 0 <= n < 100 && i + 2 <= |s| && s[i..i + 2] == TwoDigits(n)
    ensures DigitsAt(s, i, 2) == Some(n)
  {
    assert s[i] == s[i..i + 2][0] && s[i + 1] == s[i..i + 2][1];
    assert DigitsAt(s, i, 1) == Some(n / 10);
  }

  // Six pairs of characters with the separators between them.
  function Laid(a: string, b: string, m: string, d: string, h: string, n: string): string {
    a + b + "-" + m + "-" + d + "T" + h + ":" + n
  }

  lemma LaidAt(a: string, b: string, m: string, d: string, h: string, n: string)
    requires |a| == |b| == |m| == |d| == |h| == |n| == 2
    ensures var s := Laid(a, b, m, d, h, n);
            && |s| == 16 && s[4] == '-' && s[7] == '-' && s[10] == 'T' && s[13] == ':'
            && s[0..2] == a && s[2..4] == b && s[5..7] == m && s[8..10] == d && s[11..13] == h && s[14..16] == n
  {
    var s := Laid(a, b, m, d, h, n);
    assert s[0..2] == a && s[2..4] == b;
    assert s[5..7] == m && s[8..10] == d;
    assert s[11..13] == h && s[14..16] == n;
  }

  // Where the fields and the separators of printed text stand.
  lemma PrintedAt(c: Civil)
    requires IsCivil(c) && 0 <= c.date.year <= 9999
    ensures var s := PrintCivil(c);
            && |s| == 16 && s[4] == '-' && s[7] == '-' && s[10] == 'T' && s[13] == ':' && HourWidth(s) == 2
            && s[0..2] == TwoDigits(c.date.year / 100) && s[2..4] == TwoDigits(c.date.year % 100)
            && s[5..7] == TwoDigits(c.date.month) && s[8..10] == TwoDigits(c.date.day)
            && s[11..13] == TwoDigits(c.hour) && s[14..16] == TwoDigits(c.minute)
  {
    LaidAt(TwoDigits(c.date.year / 100), TwoDigits(c.date.year % 100), TwoDigits(c.date.month),
           TwoDigits(c.date.day), TwoDigits(c.hour), TwoDigits(c.minute));
    var s := PrintCivil(c);
    assert s[12] == s[11..13][1] == Digit(c.hour % 10);
  }

  lemma ParseOfPrintCivil(c: Civil)
    requires IsCivil(c) && 0 <= c.date.year <= 9999
    ensures ParseCivil(PrintCivil(c)) == Some(c)
  {
    var s := PrintCivil(c);
    PrintedAt(c);
    TwoDigitsParsed(s, 0, c.date.year / 100);
    TwoDigitsParsed(s, 2, c.date.year % 100);
    FourDigits(s);
    TwoDigitsParsed(s, 5, c.date.month);
    TwoDigitsParsed(s, 8, c.date.day);
    TwoDigitsParsed(s, 11, c.hour);
    TwoDigitsParsed(s, 14, c.minute);
  }

  lemma TwoDigitsRead(s: string, i: nat)
    requires i + 2 <= |s| && DigitsAt(s, i, 2).Some?
    ensures 0 <= DigitsAt(s, i, 2).value < 100 && TwoDigits(DigitsAt(s, i, 2).value) == s[i..i + 2]
  {
  }

  lemma YearText(year: int, a: int, b: int)
    requires 0 <= a < 100 && 0 <= b < 100 && year == 100 * a + b
    ensures 0 <= year <= 9999
    ensures TwoDigits(year / 100) + TwoDigits(year % 100) == TwoDigits(a) + TwoDigits(b)
  {
    assert year / 100 == a && year % 100 == b;
  }

  lemma FourDigits(s: string)
    requires 4 <= |s|
    ensures DigitsAt(s, 0, 4).Some? <==> DigitsAt(s, 0, 2).Some? && DigitsAt(s, 2, 2).Some?
    ensures DigitsAt(s, 0, 4).Some? ==>
              DigitsAt(s, 0, 4).value == 100 * DigitsAt(s, 0, 2).value + DigitsAt(s, 2, 2).value
  {
    if IsDigit(s[2]) {
      assert DigitsAt(s, 2, 1) == Some(DigitValue(s[2]));
    }
  }

  lemma YearRead(s: string)
    requires 4 <= |s| && DigitsAt(s, 0, 4).Some?
    ensures var year := DigitsAt(s, 0, 4).value;
            0 <= year <= 9999 && TwoDigits(year / 100) + TwoDigits(year % 100) == s[..4]
  {
    FourDigits(s);
    TwoDigitsRead(s, 0);
    TwoDigitsRead(s, 2);
    YearText(DigitsAt(s, 0, 4).value, DigitsAt(s, 0, 2).value, DigitsAt(s, 2, 2).value);
    assert s[0..2] + s[2..4] == s[..4];
  }

  // A field typed with a two-digit hour is shown again as it was typed.
  lemma PrintOfParseCivil(s: string)
    requires ParseCivil(s).Some? && HourWidth(s) == 2
    ensures 0 <= ParseCivil(s).value.date.year <= 9999 && PrintCivil(ParseCivil(s).value) == s
  {
    YearRead(s);
    TwoDigitsRead(s, 5);
    TwoDigitsRead(s, 8);
    TwoDigitsRead(s, 11);
    TwoDigitsRead(s, 14);
    assert s == s[..4] + "-" + s[5..7] + "-" + s[8..10] + "T" + s[11..13] + ":" + s[14..16];
  }

  // The printed text with the leading zero of its hour left out.
  function Short(c: Civil): string
    requires IsCivil(c) && 0 <= c.date.year <= 9999
  {
    PrintCivil(c)[..11] + PrintCivil(c)[12..]
  }

  function Widened(s: string): string
    requires |s| == 15
  {
    s[..11] + "0" + s[11..]
  }

  lemma ShiftedDigits(s: string, i: nat, t: string, j: nat)
    requires i + 2 <= |s| && j + 2 <= |t| && s[i] == t[j] && s[i + 1] == t[j + 1]
    ensures DigitsAt(s, i, 2) == DigitsAt(t, j, 2)
  {
    assert DigitsAt(s, i, 1) == DigitsAt(t, j, 1);
  }

  lemma SameYear(s: string, t: string)
    requires 4 <= |s| && 4 <= |t| && s[..4] == t[..4]
    ensures DigitsAt(s, 0, 4) == DigitsAt(t, 0, 4)
  {
    assert forall i :: 0 <= i < 4 ==> s[i] == s[..4][i] && t[i] == t[..4][i];
    FourDigits(s);
    FourDigits(t);
    ShiftedDigits(s, 0, t, 0);
    ShiftedDigits(s, 2, t, 2);
  }

  // A one-digit hour reads as the same text with a zero in front of it.
  lemma WidenedHour(s: string)
    requires |s| == 15 && s[12] == ':'
    ensures ParseCivil(s) == ParseCivil(Widened(s))
  {
    var t := Widened(s);
    assert forall i :: 0 <= i < 11 ==> t[i] == s[i];
    assert t[11] == '0' && forall i :: 11 <= i < 15 ==> t[i + 1] == s[i];
    SameYear(s, t);
    ShiftedDigits(s, 5, t, 5);
    ShiftedDigits(s, 8, t, 8);
    ShiftedDigits(s, 13, t, 14);
    if IsDigit(s[11]) {
      assert DigitsAt(t, 11, 1) == Some(0);
      assert DigitsAt(s, 11, 1) == DigitsAt(t, 11, 2);
    } else {
      assert DigitsAt(s, 11, 1) == None;
    }
  }

  lemma ShortIsWidened(c: Civil)
    requires IsCivil(c) && 0 <= c.date.year <= 9999 && c.hour < 10
    ensures |Short(c)| == 15 && Short(c)[12] == ':' && Widened(Short(c)) == PrintCivil(c)
  {
    PrintedAt(c);
    var s := PrintCivil(c);
    assert s[11] == s[11..13][0] == '0';
    assert s == s[..11] + "0" + s[12..];
    assert Short(c)[12] == s[13];
  }

  lemma ParsedShort(s: string)
    requires ParseCivil(s).Some? && HourWidth(s) == 1
    ensures var c := ParseCivil(s).value;
            0 <= c.date.year <= 9999 && c.hour < 10 && s == Short(c)
  {
    WidenedHour(s);
    var t := Widened(s);
    assert HourWidth(t) == 2;
    PrintOfParseCivil(t);
    assert t[..11] + t[12..] == s;
    assert DigitsAt(s, 11, 1) == Some(DigitValue(s[11]));
  }

  // The field is read from exactly the printed texts, the hour with or without its
  // leading zero: a date that does not exist, or anything else, is refused.
  lemma ParseCivilIff(s: string, c: Civil)
    ensures ParseCivil(s) == Some(c) <==>
              && IsCivil(c) && 0 <= c.date.year <= 9999
              && (s == PrintCivil(c) || (c.hour < 10 && s == Short(c)))
  {
    if ParseCivil(s) == Some(c) {
      if HourWidth(s) == 2 { PrintOfParseCivil(s); } else { ParsedShort(s); }
    }
    if IsCivil(c) && 0 <= c.date.year <= 9999 {
      ParseOfPrintCivil(c);
      if c.hour < 10 {
        ShortIsWidened(c);
        WidenedHour(Short(c));
      }
    }
  }

  // ---------------------------------------------------------------------------
  // Instants in the Author's zone.

  // Whole minutes of the local clock since 0000-01-01T00:00.
  function LocalMinutes(t: int, offset: int): int {
    (t + offset) / MINUTE + EPOCH_DAYS * MINUTES_PER_DAY
  }

  // The local year is 0 to 9999, which is what the field can hold.
  predicate Showable(t: int, offset: int) {
    0 <= LocalMinutes(t, offset) < DaysBeforeYear(10000) * MINUTES_PER_DAY
  }

  lemma ShowableYear(minutes: nat)
    requires minutes < DaysBeforeYear(10000) * MINUTES_PER_DAY
    ensures CivilOfMinutes(minutes).date.year <= 9999
  {
    var d := CivilOfMinutes(minutes).date;
    DaysRoundTrip(minutes / 60 / 24);
    DayWithinYear(d);
    if d.year >= 10000 { YearsOrdered(10000, d.year); }
  }

  function Format(t: int, offset: int): string
    requires Showable(t, offset)
  {
    var minutes := LocalMinutes(t, offset);
    MinutesRoundTrip(minutes);
    ShowableYear(minutes);
    PrintCivil(CivilOfMinutes(minutes))
  }

  function InstantOf(minutes: int, offset: int): int {
    (minutes - EPOCH_DAYS * MINUTES_PER_DAY) * MINUTE - offset
  }

  // `parsePublishedAt` on a field that is not empty.
  function Parse(value: string, offset: int): Option<int> {
    match ParseCivil(value)
    case None => None
    case Some(c) => if c.date.year < 0 then None else Some(InstantOf(MinutesOfCivil(c), offset))
  }

  // The start of the local minute holding t.
  function Truncated(t: int, offset: int): int {
    (t + offset) / MINUTE * MINUTE - offset
  }

  predicate MinuteAligned(t: int, offset: int) {
    (t + offset) % MINUTE == 0
  }

  lemma ParseOfMinutes(minutes: nat, offset: int)
    requires minutes < DaysBeforeYear(10000) * MINUTES_PER_DAY
    ensures var c := CivilOfMinutes(minutes);
            && IsCivil(c) && 0 <= c.date.year <= 9999
            && Parse(PrintCivil(c), offset) == Some(InstantOf(minutes, offset))
  {
    MinutesRoundTrip(minutes);
    ShowableYear(minutes);
    ParseOfPrintCivil(CivilOfMinutes(minutes));
  }

  lemma LocalInstant(t: int, offset: int)
    ensures InstantOf(LocalMinutes(t, offset), offset) == Truncated(t, offset)
  {
  }

  // Editing a stored date without touching it stores the start of its minute.
  lemma EditRoundTrip(t: int, offset: int)
    requires Showable(t, offset)
    ensures Parse(Format(t, offset), offset) == Some(Truncated(t, offset))
  {
    ParseOfMinutes(LocalMinutes(t, offset), offset);
    LocalInstant(t, offset);
  }

  // That moves it back by less than a minute and never forward, and only once.
  lemma TruncatedIsClose(t: int, offset: int)
    ensures Truncated(t, offset) <= t < Truncated(t, offset) + MINUTE
    ensures MinuteAligned(Truncated(t, offset), offset)
    ensures Truncated(Truncated(t, offset), offset) == Truncated(t, offset)
    ensures MinuteAligned(t, offset) <==> Truncated(t, offset) == t
    ensures Showable(t, offset) ==> Showable(Truncated(t, offset), offset)
  {
  }

  lemma LocalOfInstant(minutes: int, offset: int)
    ensures LocalMinutes(InstantOf(minutes, offset), offset) == minutes
    ensures MinuteAligned(InstantOf(minutes, offset), offset)
  {
    assert InstantOf(minutes, offset) + offset == (minutes - EPOCH_DAYS * MINUTES_PER_DAY) * MINUTE;
  }

  lemma MinutesWithinYears(c: Civil)
    requires IsCivil(c) && 0 <= c.date.year <= 9999
    ensures 0 <= MinutesOfCivil(c) < DaysBeforeYear(10000) * MINUTES_PER_DAY
  {
    DayWithinYear(c.date);
    YearsOrdered(c.date.year, 9999);
    assert MinutesOfCivil(c) == DaysOfDate(c.date) * MINUTES_PER_DAY + c.hour * 60 + c.minute;
  }

  // A parsed date is the start of a minute the field can show, and shows as typed.
  lemma ParsedIsAligned(value: string, offset: int)
    requires Parse(value, offset).Some?
    ensures var t := Parse(value, offset).value;
            && MinuteAligned(t, offset) && Showable(t, offset)
            && (HourWidth(value) == 2 ==> Format(t, offset) == value)
  {
    var c := ParseCivil(value).value;
    var t := Parse(value, offset).value;
    YearRead(value);
    LocalOfInstant(MinutesOfCivil(c), offset);
    MinutesWithinYears(c);
    CivilRoundTrip(c);
    if HourWidth(value) == 2 {
      PrintOfParseCivil(value);
    }
  }

  // The instant a field stands for, from its parts alone.
  lemma ParsedInstant(value: string, offset: int)
    requires Parse(value, offset).Some?
    ensures var c := ParseCivil(value).value;
            var d := c.date;
            && ParseCivil(value).Some? && 0 <= d.year <= 9999
            && Parse(value, offset).value ==
               (((365 * d.year + LeapYears(d.year) + MonthOffset(d.year, d.month) + d.day - 1 - EPOCH_DAYS) * 24
                 + c.hour) * 60 + c.minute) * MINUTE - offset
  {
    YearRead(value);
    DaysOfDateClosed(ParseCivil(value).value.date);
  }

  // Known dates, which a consistent relabelling of the calendar would not keep.
  lemma NewYear(year: nat, days: int)
    requires days == 365 * year + LeapYears(year)
    ensures DaysOfDate(Date(year, 1, 1)) == days
  {
    LeapYearsBefore(year);
  }

  lemma EpochDate()
    ensures Parse("1970-01-01T00:00", 0) == Some(0)
  {
    var c := Civil(Date(1970, 1, 1), 0, 0);
    assert PrintCivil(c) == "1970-01-01T00:00";
    ParseOfPrintCivil(c);
    NewYear(1970, EPOCH_DAYS);
  }

  // Two hours east of UTC the first hour of 1970 is still to come at two.
  lemma EpochInZone()
    ensures Parse("1970-01-01T02:00", 120 * MINUTE) == Some(0)
  {
    var c := Civil(Date(1970, 1, 1), 2, 0);
    assert PrintCivil(c) == "1970-01-01T02:00";
    ParseOfPrintCivil(c);
    NewYear(1970, EPOCH_DAYS);
  }

  lemma LeapDay()
    ensures Parse("2000-02-29T23:59", 0) == Some(951868740 * 1_000_000)
  {
    var c := Civil(Date(2000, 2, 29), 23, 59);
    assert PrintCivil(c) == "2000-02-29T23:59";
    ParseOfPrintCivil(c);
    NewYear(2000, 730485);
    assert DaysOfDate(c.date) == 730485 + 59;
  }

  lemma NoLeapDay()
    ensures Parse("1900-02-29T00:00", 0) == None
  {
    var s := "1900-02-29T00:00";
    assert TwoDigits(19) == "19" && TwoDigits(0) == "00" && TwoDigits(2) == "02" && TwoDigits(29) == "29";
    LaidAt("19", "00", "02", "29", "00", "00");
    assert s == Laid("19", "00", "02", "29", "00", "00");
    TwoDigitsParsed(s, 0, 19);
    TwoDigitsParsed(s, 2, 0);
    FourDigits(s);
    TwoDigitsParsed(s, 5, 2);
    TwoDigitsParsed(s, 8, 29);
    var c := Civil(Date(1900, 2, 29), 0, 0);
    assert !IsCivil(c);
  }
}
