/** Calendar arithmetic of the schedule screen (App.tsx): the weekday of a
    date, the Monday of its week (`getMonday`), the `DD/MM/YYYY` display date
    (`formatDate`) and the week identifier, the ISO `YYYY-MM-DD` rendering of
    the week's Monday.

    A date is a day number: the count of days since 1970-01-01, the
    JavaScript epoch, which was a Thursday. Its calendar form is a proleptic
    Gregorian (year, month, day) triple, as JavaScript's Date uses. */
module Calendar {
  import opened Types
  import opened Decimal

  /** A calendar date; `month` runs from 1 (January) to 12. */
  datatype Date = Date(year: int, month: int, day: int)

  /** `getDay()`: 0 for Sunday, 1 for Monday, ..., 6 for Saturday. */
  function Weekday(n: int): (w: int)
    ensures 0 <= w < 7
  {
    (n + 4) % 7
  }

  lemma WeekdayShift(n: int, k: int)
    ensures Weekday(n + 7 * k) == Weekday(n)
  {
  }

  /** `getMonday`: steps back to the Monday on or before `n`; a Sunday goes
      back six days, to the Monday that opens its week. */
  function GetMonday(n: int): (m: int)
    ensures Weekday(m) == 1
    ensures n - 6 <= m <= n
  {
    var w := Weekday(n);
    var r := n - w + (if w == 0 then -6 else 1);
    assert n + 4 == 7 * ((n + 4) / 7) + w;
    assert r + 4 == 7 * ((n + 4) / 7 - (if w == 0 then 1 else 0)) + 1;
    WeekdayShift(1 - 4, (n + 4) / 7 - (if w == 0 then 1 else 0));
    r
  }

  /** The step back is weekday - 1 days for Monday to Saturday and 6 days for Sunday. */
  lemma GetMondayStepsBack(n: int)
    ensures GetMonday(n) == n - (Weekday(n) + 6) % 7
  {
    var w := Weekday(n);
    if w == 0 {
      SundayResolvesBackwards(n);
    } else {
      MondaysCoincide(n - (w - 1), GetMonday(n)) by {
        assert n + 4 == 7 * ((n + 4) / 7) + w;
        WeekdayShift(1 - 4, (n + 4) / 7);
      }
    }
  }

  /** Two Mondays less than a week apart are the same day. */
  lemma MondaysCoincide(a: int, b: int)
    requires Weekday(a) == 1 && Weekday(b) == 1
    requires a <= b < a + 7
    ensures a == b
  {
    assert a + 4 == 7 * ((a + 4) / 7) + 1;
    assert b + 4 == 7 * ((b + 4) / 7) + 1;
  }

  /** `b` lies in the Monday-to-Sunday week of `a` exactly when both map to the same Monday. */
  lemma SameWeekSameMonday(a: int, b: int)
    ensures GetMonday(a) == GetMonday(b) <==> GetMonday(a) <= b < GetMonday(a) + 7
  {
    var m := GetMonday(a);
    if m <= b < m + 7 {
      var mb := GetMonday(b);
      if mb <= m {
        MondaysCoincide(mb, m);
      } else {
        MondaysCoincide(m, mb);
      }
    }
  }

  /** A Sunday resolves to the Monday six days before it, never the following Monday. */
  lemma SundayResolvesBackwards(n: int)
    requires Weekday(n) == 0
    ensures GetMonday(n) == n - 6
  {
    assert Weekday(n - 6) == 1 by {
      WeekdayShift(n - 6, 1);
    }
    MondaysCoincide(n - 6, GetMonday(n));
  }

  /** Every day of the week after `a`'s resolves to the Monday seven days later. */
  lemma NextWeekMonday(a: int, b: int)
    requires GetMonday(a) + 7 <= b < GetMonday(a) + 14
    ensures GetMonday(b) == GetMonday(a) + 7
  {
    var m := GetMonday(a) + 7;
    WeekdayShift(GetMonday(a), 1);
    var mb := GetMonday(b);
    if mb <= m {
      MondaysCoincide(mb, m);
    } else {
      MondaysCoincide(m, mb);
    }
  }

  // ---------------------------------------------------------------------
  // The proleptic Gregorian calendar

  predicate IsLeapYear(y: int) {
    y % 4 == 0 && (y % 100 != 0 || y % 400 == 0)
  }

  function DaysInYear(y: int): int {
    if IsLeapYear(y) then 366 else 365
  }

  function DaysInMonth(y: int, m: int): (d: int)
    requires 1 <= m <= 12
    ensures 28 <= d <= 31
  {
    if m == 2 then (if IsLeapYear(y) then 29 else 28)
    else if m == 4 || m == 6 || m == 9 || m == 11 then 30
    else 31
  }

  /** The number of days of year `y` before the first of month `m` (13 stands for the end of the year). */
  function DaysBeforeMonth(y: int, m: int): (d: int)
    requires 1 <= m <= 13
    ensures 0 <= d
  {
    if m == 1 then 0 else DaysBeforeMonth(y, m - 1) + DaysInMonth(y, m - 1)
  }

  lemma DaysBeforeYearEnd(y: int)
    ensures DaysBeforeMonth(y, 13) == DaysInYear(y)
  {
    var leap := if IsLeapYear(y) then 1 else 0;
    assert DaysBeforeMonth(y, 2) == 31;
    assert DaysBeforeMonth(y, 3) == 59 + leap;
    assert DaysBeforeMonth(y, 4) == 90 + leap;
    assert DaysBeforeMonth(y, 5) == 120 + leap;
    assert DaysBeforeMonth(y, 6) == 151 + leap;
    assert DaysBeforeMonth(y, 7) == 181 + leap;
    assert DaysBeforeMonth(y, 8) == 212 + leap;
    assert DaysBeforeMonth(y, 9) == 243 + leap;
    assert DaysBeforeMonth(y, 10) == 273 + leap;
    assert DaysBeforeMonth(y, 11) == 304 + leap;
    assert DaysBeforeMonth(y, 12) == 334 + leap;
  }

  /** Month `a` ends no later than month `b` begins. */
  lemma {:induction false} DaysBeforeMonthGap(y: int, a: int, b: int)
    requires 1 <= a < b <= 13
    ensures DaysBeforeMonth(y, a) + DaysInMonth(y, a) <= DaysBeforeMonth(y, b)
    decreases b - a
  {
    if b > a + 1 {
      DaysBeforeMonthGap(y, a, b - 1);
    }
  }

  predicate ValidDate(c: Date) {
    1 <= c.month <= 12 && 1 <= c.day <= DaysInMonth(c.year, c.month)
  }

  /** The day number of January 1st of year `y`. */
  function YearStart(y: int): int
    decreases if y < 1970 then 1970 - y else y - 1970
  {
    if y == 1970 then 0
    else if y > 1970 then YearStart(y - 1) + DaysInYear(y - 1)
    else YearStart(y + 1) - DaysInYear(y)
  }

  lemma YearStartStep(y: int)
    ensures YearStart(y + 1) == YearStart(y) + DaysInYear(y)
  {
  }

  /** Year `a` ends no later than year `b` begins. */
  lemma {:induction false} YearStartGap(a: int, b: int)
    requires a < b
    ensures YearStart(a) + DaysInYear(a) <= YearStart(b)
    decreases b - a
  {
    YearStartStep(b - 1);
    if b > a + 1 {
      YearStartGap(a, b - 1);
    }
  }

  /** The year holding the day `r` days after January 1st of year `y`, and the
      (0-based) day of that year it is. */
  function LocateYear(y: int, r: int): (res: (int, int))
    ensures 0 <= res.1 < DaysInYear(res.0)
    ensures YearStart(res.0) + res.1 == YearStart(y) + r
    decreases if r < 0 then 366 - r else r
  {
    if r < 0 then
      YearStartStep(y - 1);
      LocateYear(y - 1, r + DaysInYear(y - 1))
    else if r < DaysInYear(y) then
      (y, r)
    else
      YearStartStep(y);
      LocateYear(y + 1, r - DaysInYear(y))
  }

  /** The month, at most `m`, holding day `doy` (0-based) of year `y`. */
  function MonthSearch(y: int, doy: int, m: int): (r: int)
    requires 1 <= m <= 12
    requires 0 <= doy < DaysBeforeMonth(y, m) + DaysInMonth(y, m)
    ensures 1 <= r <= m
    ensures DaysBeforeMonth(y, r) <= doy < DaysBeforeMonth(y, r) + DaysInMonth(y, r)
  {
    if DaysBeforeMonth(y, m) <= doy then m else MonthSearch(y, doy, m - 1)
  }

  function ToDays(c: Date): int
    requires ValidDate(c)
  {
    YearStart(c.year) + DaysBeforeMonth(c.year, c.month) + c.day - 1
  }

  /** The calendar date of day number `n`: always a valid date. */
  function FromDays(n: int): (c: Date)
    ensures ValidDate(c)
  {
    var located := LocateYear(1970, n);
    var y, doy := located.0, located.1;
    DaysBeforeYearEnd(y);
    var m := MonthSearch(y, doy, 12);
    Date(y, m, doy - DaysBeforeMonth(y, m) + 1)
  }

  /** The calendar date of day number `n` has day number `n`. */
  lemma FromDaysToDays(n: int)
    ensures ToDays(FromDays(n)) == n
  {
    var located := LocateYear(1970, n);
    DaysBeforeYearEnd(located.0);
  }

  /** Distinct (year, day-of-year) positions name distinct days. */
  lemma YearPositionUnique(y1: int, d1: int, y2: int, d2: int)
    requires 0 <= d1 < DaysInYear(y1) && 0 <= d2 < DaysInYear(y2)
    requires YearStart(y1) + d1 == YearStart(y2) + d2
    ensures y1 == y2 && d1 == d2
  {
    if y1 < y2 {
      YearStartGap(y1, y2);
    } else if y2 < y1 {
      YearStartGap(y2, y1);
    }
  }

  lemma MonthUnique(y: int, doy: int, m1: int, m2: int)
    requires 1 <= m1 <= 12 && 1 <= m2 <= 12
    requires DaysBeforeMonth(y, m1) <= doy < DaysBeforeMonth(y, m1) + DaysInMonth(y, m1)
    requires DaysBeforeMonth(y, m2) <= doy < DaysBeforeMonth(y, m2) + DaysInMonth(y, m2)
    ensures m1 == m2
  {
    if m1 < m2 {
      DaysBeforeMonthGap(y, m1, m2);
    } else if m2 < m1 {
      DaysBeforeMonthGap(y, m2, m1);
    }
  }

  /** Every valid calendar date is the date of exactly its own day number. */
  lemma FromToDays(c: Date)
    requires ValidDate(c)
    ensures FromDays(ToDays(c)) == c
  {
    var y, m := c.year, c.month;
    var doy := DaysBeforeMonth(y, m) + c.day - 1;
    DaysBeforeYearEnd(y);
    DaysBeforeMonthGap(y, m, 13);
    assert doy < DaysInYear(y);
    var located := LocateYear(1970, ToDays(c));
    YearPositionUnique(located.0, located.1, y, doy);
    MonthUnique(y, doy, MonthSearch(y, doy, 12), m);
  }

  /** Distinct day numbers have distinct calendar dates. */
  lemma FromDaysInjective(a: int, b: int)
    requires FromDays(a) == FromDays(b)
    ensures a == b
  {
    FromDaysToDays(a);
    FromDaysToDays(b);
  }

  // ---------------------------------------------------------------------
  // Display date: `formatDate`

  /** `DD/MM/YYYY`: day and month padded with zeros to two digits, the year as `String(year)`. */
  function FormatCivil(c: Date): string
    requires ValidDate(c)
  {
    PadStart(c.day, 2) + "/" + PadStart(c.month, 2) + "/" + IntToString(c.year)
  }

  /** `formatDate` of the date with day number `n`. */
  function FormatDate(n: int): string {
    FormatCivil(FromDays(n))
  }

  /** Reads a `DD/MM/YYYY` display date back. */
  function ParseDisplayDate(s: string): Option<Date> {
    if |s| >= 7 && s[2] == '/' && s[5] == '/'
       && AllDigits(s[..2]) && AllDigits(s[3..5]) && IsIntString(s[6..])
    then Some(Date(ParseInt(s[6..]), ParseNat(s[3..5]), ParseNat(s[..2])))
    else None
  }

  /** The display date has two-digit day and month fields and an unpadded
      year, and it determines the date. */
  lemma DisplayDateRoundTrip(c: Date)
    requires ValidDate(c)
    ensures |FormatCivil(c)| == 6 + |IntToString(c.year)|
    ensures ParseDisplayDate(FormatCivil(c)) == Some(c)
  {
    var d, m, y := PadStart(c.day, 2), PadStart(c.month, 2), IntToString(c.year);
    PadStartWidth(c.day, 2);
    PadStartWidth(c.month, 2);
    PadStartReadsBack(c.day, 2);
    PadStartReadsBack(c.month, 2);
    IntToStringRoundTrip(c.year);
    var s := FormatCivil(c);
    assert s == d + "/" + m + "/" + y;
    assert s[..2] == d;
    assert s[3..5] == m;
    assert s[6..] == y;
  }

  /** Two day numbers are displayed alike exactly when they are the same day. */
  lemma FormatDateInjective(a: int, b: int)
    ensures FormatDate(a) == FormatDate(b) <==> a == b
  {
    if FormatDate(a) == FormatDate(b) {
      DisplayDateRoundTrip(FromDays(a));
      DisplayDateRoundTrip(FromDays(b));
      FromDaysInjective(a, b);
    }
  }

  // ---------------------------------------------------------------------
  // Week identifier: `toISOString().split('T')[0]` of the Monday

  /** The ISO year: four digits for years 0 to 9999, otherwise a sign and at least six digits. */
  function IsoYear(y: int): string {
    if 0 <= y <= 9999 then PadStart(y, 4)
    else if y < 0 then "-" + PadStart(-y, 6)
    else "+" + PadStart(y, 6)
  }

  /** `YYYY-MM-DD`. */
  function IsoDate(c: Date): string
    requires ValidDate(c)
  {
    IsoYear(c.year) + "-" + PadStart(c.month, 2) + "-" + PadStart(c.day, 2)
  }

  predicate IsIsoYear(t: string) {
    |t| >= 1 && (if t[0] == '-' || t[0] == '+' then AllDigits(t[1..]) else AllDigits(t))
  }

  function ParseIsoYear(t: string): int
    requires IsIsoYear(t)
  {
    if t[0] == '-' then -(ParseNat(t[1..]) as int)
    else if t[0] == '+' then ParseNat(t[1..])
    else ParseNat(t)
  }

  lemma IsoYearRoundTrip(y: int)
    ensures |IsoYear(y)| >= 4
    ensures IsIsoYear(IsoYear(y)) && ParseIsoYear(IsoYear(y)) == y
  {
    var t := IsoYear(y);
    if 0 <= y <= 9999 {
      assert Pow10(4) == 10000;
      PadStartWidth(y, 4);
      PadStartReadsBack(y, 4);
      assert t[0] != '-' && t[0] != '+';
    } else {
      var magnitude := if y < 0 then -y else y;
      PadStartReadsBack(magnitude, 6);
      assert t[1..] == PadStart(magnitude, 6);
    }
  }

  /** The ISO year takes four characters for years 0 to 9999, and a sign and
      six digits for the other years of fewer than seven digits. */
  lemma IsoYearWidth(y: int)
    ensures 0 <= y <= 9999 ==> |IsoYear(y)| == 4
    ensures (y < 0 || y > 9999) && -1000000 < y < 1000000 ==> |IsoYear(y)| == 7
  {
    if 0 <= y <= 9999 {
      assert Pow10(4) == 10000;
      PadStartWidth(y, 4);
    } else if -1000000 < y < 1000000 {
      assert Pow10(6) == 1000000;
      PadStartWidth(if y < 0 then -y else y, 6);
    }
  }

  /** Reads a `YYYY-MM-DD` identifier back, taking the fields from the end. */
  function ParseIsoDate(s: string): Option<Date> {
    if |s| >= 10 && s[|s| - 6] == '-' && s[|s| - 3] == '-'
       && IsIsoYear(s[..|s| - 6]) && AllDigits(s[|s| - 5..|s| - 3]) && AllDigits(s[|s| - 2..])
    then Some(Date(ParseIsoYear(s[..|s| - 6]), ParseNat(s[|s| - 5..|s| - 3]), ParseNat(s[|s| - 2..])))
    else None
  }

  /** Where the fields of `year-MM-DD` sit, counted from the end. */
  lemma IsoFieldsFromEnd(y: string, m: string, d: string)
    requires |y| >= 4 && |m| == 2 && |d| == 2
    ensures var s := y + "-" + m + "-" + d;
      && |s| == |y| + 6
      && s[..|s| - 6] == y && s[|s| - 6] == '-'
      && s[|s| - 5..|s| - 3] == m && s[|s| - 3] == '-'
      && s[|s| - 2..] == d
  {
    var s := y + "-" + m + "-" + d;
    var k := |y|;
    assert s[..k] == y;
    assert s[k + 1..k + 3] == m;
    assert s[k + 4..] == d;
  }

  lemma IsoDateRoundTrip(c: Date)
    requires ValidDate(c)
    ensures ParseIsoDate(IsoDate(c)) == Some(c)
  {
    var y, m, d := IsoYear(c.year), PadStart(c.month, 2), PadStart(c.day, 2);
    IsoYearRoundTrip(c.year);
    PadStartWidth(c.month, 2);
    PadStartWidth(c.day, 2);
    PadStartReadsBack(c.month, 2);
    PadStartReadsBack(c.day, 2);
    IsoFieldsFromEnd(y, m, d);
  }

  /** The identifier under which the week of day `today` is stored: the ISO date of its Monday. */
  function WeekIdOf(today: int): string {
    IsoDate(FromDays(GetMonday(today)))
  }

  /** Two days share a week identifier exactly when they lie in the same Monday-to-Sunday week. */
  lemma WeekIdSameIffSameWeek(a: int, b: int)
    ensures WeekIdOf(a) == WeekIdOf(b) <==> GetMonday(a) <= b < GetMonday(a) + 7
  {
    SameWeekSameMonday(a, b);
    if WeekIdOf(a) == WeekIdOf(b) {
      IsoDateRoundTrip(FromDays(GetMonday(a)));
      IsoDateRoundTrip(FromDays(GetMonday(b)));
      FromDaysInjective(GetMonday(a), GetMonday(b));
    }
  }

  /** Days of adjacent weeks get different identifiers. */
  lemma AdjacentWeeksDiffer(a: int, b: int)
    requires GetMonday(a) + 7 <= b < GetMonday(a) + 14
    ensures GetMonday(b) == GetMonday(a) + 7
    ensures WeekIdOf(a) != WeekIdOf(b)
  {
    NextWeekMonday(a, b);
    WeekIdSameIffSameWeek(a, b);
  }
}
