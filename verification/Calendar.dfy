/** The real-time clock's day formula against a calendar that counts days one by one. */
module Calendar {
  import opened Bits
  import opened Memory

  datatype Date = Date(year: nat, month: nat, day: nat)
  datatype Time = Time(date: Date, hour: nat, minute: nat, second: nat)

  predicate Leap(y: nat) {
    y % 4 == 0 && (y % 100 != 0 || y % 400 == 0)
  }

  function DaysInMonth(y: nat, m: nat): nat {
    if m == 2 then (if Leap(y) then 29 else 28)
    else if m in {4, 6, 9, 11} then 30
    else 31
  }

  function DaysInYear(y: nat): nat {
    if Leap(y) then 366 else 365
  }

  predicate ValidDate(t: Date) {
    1970 <= t.year <= 0xFFFF && 1 <= t.month <= 12 && 1 <= t.day <= DaysInMonth(t.year, t.month)
  }

  // ---- counting ----

  function DaysBeforeYear(y: nat): nat
    requires y >= 1970
  {
    if y == 1970 then 0 else DaysBeforeYear(y - 1) + DaysInYear(y - 1)
  }

  function DaysBeforeMonth(y: nat, m: nat): nat {
    if m <= 1 then 0 else DaysBeforeMonth(y, m - 1) + DaysInMonth(y, m - 1)
  }

  /** Days from 1 January 1970, counted year by year and month by month. */
  function DayCount(t: Date): nat
    requires ValidDate(t)
  {
    DaysBeforeYear(t.year) + DaysBeforeMonth(t.year, t.month) + t.day - 1
  }

  function NextDay(t: Date): Date {
    if t.day < DaysInMonth(t.year, t.month) then t.(day := t.day + 1)
    else if t.month < 12 then Date(t.year, t.month + 1, 1)
    else Date(t.year + 1, 1, 1)
  }

  lemma MonthTable(y: nat, m: nat)
    requires 1 <= m <= 12
    ensures DaysBeforeMonth(y, m)
            == if m == 1 then 0 else if m == 2 then 31
               else (153 * (m - 3) + 2) / 5 + if Leap(y) then 60 else 59
  {
    if m > 3 {
      MonthTable(y, m - 1);
    } else if m == 3 {
      assert DaysBeforeMonth(y, 2) == 31;
    } else if m == 2 {
      assert DaysBeforeMonth(y, 1) == 0;
    }
  }

  /** The calendar's own consistency: the days of the twelve months fill the year. */
  lemma YearIsFull(y: nat)
    ensures DaysBeforeMonth(y, 12) + 31 == DaysInYear(y)
  {
    MonthTable(y, 12);
  }

  lemma CountSteps(t: Date)
    requires ValidDate(t) && ValidDate(NextDay(t))
    ensures DayCount(NextDay(t)) == DayCount(t) + 1
  {
    YearIsFull(t.year);
  }

  // ---- the formula ----

  /** Days before the year that starts on 1 March of year `y`, in closed form. */
  function YearDays(y: nat): int {
    365 * y + y / 4 - y / 100 + y / 400
  }

  lemma DivStep(y: nat, n: nat)
    requires 0 < n && 0 < y
    ensures y / n == (y - 1) / n + if y % n == 0 then 1 else 0
  {
    var q, r := y / n, y % n;
    assert y == q * n + r;
    if r == 0 {
      assert y - 1 == (q - 1) * n + (n - 1);
      Quotient(y - 1, n, q - 1, n - 1);
    } else {
      Quotient(y - 1, n, q, r - 1);
    }
  }

  lemma Quotient(x: nat, n: nat, q: int, r: nat)
    requires r < n && x == q * n + r
    ensures x / n == q
  {
    SameQuotient(n, q, r, x / n, x % n);
  }

  lemma LeapDays(y: nat)
    ensures (if y % 4 == 0 then 1 else 0) - (if y % 100 == 0 then 1 else 0) + (if y % 400 == 0 then 1 else 0)
            == if Leap(y) then 1 else 0
  {
    if y % 400 == 0 {
      SameQuotient(100, 4 * (y / 400), 0, y / 100, y % 100);
    }
    if y % 100 == 0 {
      SameQuotient(4, 25 * (y / 100), 0, y / 4, y % 4);
    }
  }

  lemma YearDaysStep(y: nat)
    requires 0 < y
    ensures YearDays(y) == YearDays(y - 1) + DaysInYear(y)
  {
    DivStep(y, 4);
    DivStep(y, 100);
    DivStep(y, 400);
    LeapDays(y);
  }

  lemma {:induction false} YearsCounted(y: nat)
    requires y >= 1970
    ensures DaysBeforeYear(y) == YearDays(y - 1) + 306 - 719468
  {
    if y > 1970 {
      YearsCounted(y - 1);
      YearDaysStep(y - 1);
    }
  }

  /** Splitting off whole 400-year eras does not change the closed form. */
  lemma EraSplit(y: nat)
    ensures var era, yoe := y / 400, y % 400;
            era * 146097 + yoe * 365 + yoe / 4 - yoe / 100 == YearDays(y)
  {
    var era, yoe := y / 400, y % 400;
    assert y == 400 * era + yoe;
    Quotient(y, 4, 100 * era + yoe / 4, yoe % 4);
    Quotient(y, 100, 4 * era + yoe / 100, yoe % 100);
  }

  /** The day number that the driver's formula gives. */
  function DayNumber(t: Date): int {
    var y := if t.month <= 2 then t.year - 1 else t.year;
    var m := if t.month <= 2 then t.month + 12 else t.month;
    var era := y / 400;
    var yoe := y - era * 400;
    var doy := (153 * (m - 3) + 2) / 5 + t.day - 1;
    var doe := yoe * 365 + yoe / 4 - yoe / 100 + doy;
    era * 146097 + doe - 719468
  }

  /** The formula in terms of the year that starts on 1 March. */
  lemma FormulaIs(t: Date)
    requires ValidDate(t)
    ensures DayNumber(t)
            == t.day - 1 - 719468
               + if t.month <= 2 then YearDays(t.year - 1) + (153 * (t.month + 9) + 2) / 5
                 else YearDays(t.year) + (153 * (t.month - 3) + 2) / 5
  {
    hide YearDays;
    var y := if t.month <= 2 then t.year - 1 else t.year;
    EraSplit(y);
    assert y - y / 400 * 400 == y % 400;
  }

  /** For every valid date the formula gives the number of days counted. */
  lemma FormulaCounts(t: Date)
    requires ValidDate(t)
    ensures DayNumber(t) == DayCount(t)
  {
    hide YearDays, DayNumber, DaysBeforeYear, DaysBeforeMonth;
    FormulaIs(t);
    YearsCounted(t.year);
    YearDaysStep(t.year);
    MonthTable(t.year, t.month);
  }

  lemma Formula(t: Date, days: int)
    requires ValidDate(t) && days == DayNumber(t)
    ensures days == DayCount(t)
  {
    FormulaCounts(t);
  }

  /** The next day is one more, across month ends, leap days and centuries. */
  lemma SuccessorIsOneMore(t: Date)
    requires ValidDate(t) && ValidDate(NextDay(t))
    ensures DayNumber(NextDay(t)) == DayNumber(t) + 1
  {
    FormulaCounts(t);
    FormulaCounts(NextDay(t));
    CountSteps(t);
  }

  predicate Earlier(s: Date, t: Date) {
    s.year < t.year || (s.year == t.year && (s.month < t.month || (s.month == t.month && s.day < t.day)))
  }

  lemma {:induction false} YearsApart(y: nat, z: nat)
    requires 1970 <= y < z
    ensures DaysBeforeYear(y) + DaysInYear(y) <= DaysBeforeYear(z)
    decreases z
  {
    if z > y + 1 {
      YearsApart(y, z - 1);
    }
  }

  lemma {:induction false} MonthsApart(y: nat, m: nat, n: nat)
    requires 1 <= m < n
    ensures DaysBeforeMonth(y, m) + DaysInMonth(y, m) <= DaysBeforeMonth(y, n)
    decreases n
  {
    if n > m + 1 {
      MonthsApart(y, m, n - 1);
    }
  }

  lemma EarlierCountsLess(s: Date, t: Date)
    requires ValidDate(s) && ValidDate(t) && Earlier(s, t)
    ensures DayCount(s) < DayCount(t)
  {
    if s.month < 12 {
      MonthsApart(s.year, s.month, 12);
    }
    YearIsFull(s.year);
    if s.year < t.year {
      YearsApart(s.year, t.year);
    } else if s.month < t.month {
      MonthsApart(s.year, s.month, t.month);
    }
  }

  /** Day numbers order dates as the calendar does, so no two dates share one. */
  lemma FormulaOrders(s: Date, t: Date)
    requires ValidDate(s) && ValidDate(t)
    ensures DayNumber(s) < DayNumber(t) <==> Earlier(s, t)
    ensures DayNumber(s) == DayNumber(t) <==> s == t
  {
    FormulaCounts(s);
    FormulaCounts(t);
    if Earlier(s, t) {
      EarlierCountsLess(s, t);
    } else if s != t {
      EarlierCountsLess(t, s);
    }
  }

  /** Seconds from 1 January 1970. */
  function Seconds(t: Time): nat
    requires ValidDate(t.date)
  {
    DayCount(t.date) * 86400 + t.hour * 3600 + t.minute * 60 + t.second
  }

  predicate ValidTime(t: Time) {
    ValidDate(t.date) && t.hour < 24 && t.minute < 60 && t.second < 60
  }

  function NextSecond(t: Time): Time {
    if t.second < 59 then t.(second := t.second + 1)
    else if t.minute < 59 then t.(minute := t.minute + 1, second := 0)
    else if t.hour < 23 then t.(hour := t.hour + 1, minute := 0, second := 0)
    else Time(NextDay(t.date), 0, 0, 0)
  }

  /** The next second is one more, across minutes, hours and midnight. */
  lemma NextSecondIsOneMore(t: Time)
    requires ValidTime(t) && ValidTime(NextSecond(t))
    ensures Seconds(NextSecond(t)) == Seconds(t) + 1
  {
    hide DayCount, NextDay;
    if t.second == 59 && t.minute == 59 && t.hour == 23 {
      CountSteps(t.date);
    }
  }

  /** The count starts at 0, and the days around 29 February of 2000, and 1 March of 2100,
      have the numbers they are known by. */
  lemma KnownDays()
    ensures DayNumber(Date(1970, 1, 1)) == 0 && DayNumber(Date(2000, 2, 29)) == 11016
    ensures DayNumber(Date(2000, 3, 1)) == 11017
    ensures DayNumber(Date(2100, 2, 28)) == 47540 && DayNumber(Date(2100, 3, 1)) == 47541
  {
    hide DayNumber;
    EpochDay();
    LeapDay();
    MarchOf(2000, 5, 0);
    LastOfFebruary();
    MarchOf(2100, 5, 100);
  }

  lemma EpochDay()
    ensures DayNumber(Date(1970, 1, 1)) == 0
  {
    assert 1969 / 400 == 4;
  }

  lemma LeapDay()
    ensures DayNumber(Date(2000, 2, 29)) == 11016
  {
    assert 1999 / 400 == 4;
  }

  lemma LastOfFebruary()
    ensures DayNumber(Date(2100, 2, 28)) == 47540
  {
    assert 2099 / 400 == 5;
  }

  lemma MarchOf(y: nat, era: nat, yoe: nat)
    requires y == 400 * era + yoe && yoe < 400
    ensures DayNumber(Date(y, 3, 1)) == era * 146097 + yoe * 365 + yoe / 4 - yoe / 100 - 719468
  {
    assert y / 400 == era && y - era * 400 == yoe;
  }

  lemma Wraps(t: Time, days: int)
    requires ValidDate(t.date) && days == DayCount(t.date)
    ensures days * 86400 + t.hour * 3600 + t.minute * 60 + t.second == Seconds(t)
    ensures Seconds(t) % 0x1_0000_0000 == Seconds(t) <==> Seconds(t) < 0x1_0000_0000
  {
  }

  /** The part of `rtc_get_ticks` that computes the day. */
  method Days(t: Date) returns (days: int)
    requires ValidDate(t)
    ensures days == DayCount(t)
  {
    hide DayCount, DaysInMonth;
    var y, m, d := t.year, t.month, t.day;
    if m <= 2 {
      y := y - 1;
      m := m + 12;
    }
    var era := y / 400;
    var yoe := y - era * 400;
    var doy := (153 * (m - 3) + 2) / 5 + d - 1;
    var doe := yoe * 365 + yoe / 4 - yoe / 100 + doy;
    days := era * 146097 + doe - 719468;
    Formula(t, days);
  }

  /** `rtc_get_ticks` once the clock is read, in 32-bit arithmetic: the count of seconds
      exactly until it no longer fits. */
  method Ticks(t: Time) returns (r: Word)
    requires ValidDate(t.date) && t.hour < 0x100 && t.minute < 0x100 && t.second < 0x100
    ensures r == Seconds(t) % 0x1_0000_0000
    ensures r == Seconds(t) <==> Seconds(t) < 0x1_0000_0000
  {
    hide DayCount, Seconds;
    var days := Days(t.date);
    r := (days * 86400 + t.hour * 3600 + t.minute * 60 + t.second) % 0x1_0000_0000;
    Wraps(t, days);
  }
}
