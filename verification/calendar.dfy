/** Calendar dates of the proleptic Gregorian calendar, the calendar behind
    JavaScript's `Date`: leap years, month lengths, a day count from
    0000-01-01, day stepping, the day of the week, and the way a `Date` built
    from a (year, month, day) triple whose month or day is out of range rolls
    over into the neighbouring months (ECMAScript's MakeDay). */
module Calendar {

  /** A date as its three local-calendar fields; `month` and `day` count from 1.
      Only `ValidDate` values name a real day. */
  datatype Date = Date(year: int, month: int, day: int)

  predicate IsLeapYear(y: int) {
    y % 4 == 0 && (y % 100 != 0 || y % 400 == 0)
  }

  function DaysInMonth(y: int, m: int): int
  {
    if m == 2 then (if IsLeapYear(y) then 29 else 28)
    else if m == 4 || m == 6 || m == 9 || m == 11 then 30
    else 31
  }

  predicate ValidDate(d: Date) {
    1 <= d.month <= 12 && 1 <= d.day <= DaysInMonth(d.year, d.month)
  }

  function YearLength(y: int): int {
    if IsLeapYear(y) then 366 else 365
  }

  /** The number of days from 0000-01-01 to the first day of year `y`
      (negative for years before 0). */
  function DaysBeforeYear(y: int): int {
    365 * y + (y + 3) / 4 - (y + 99) / 100 + (y + 399) / 400
  }

  /** The number of days in year `y` before the first day of month `m`. */
  function DaysBeforeMonth(y: int, m: int): int
    requires 1 <= m <= 12
  {
    (match m
     case 1 => 0 case 2 => 31 case 3 => 59 case 4 => 90
     case 5 => 120 case 6 => 151 case 7 => 181 case 8 => 212
     case 9 => 243 case 10 => 273 case 11 => 304 case _ => 334)
    + (if m > 2 && IsLeapYear(y) then 1 else 0)
  }

  /** The day number of a date: days since 0000-01-01. */
  function Ordinal(d: Date): int
    requires 1 <= d.month <= 12
  {
    DaysBeforeYear(d.year) + DaysBeforeMonth(d.year, d.month) + d.day - 1
  }

  /** Lexicographic order on (year, month, day). */
  predicate Before(a: Date, b: Date) {
    a.year < b.year
    || (a.year == b.year && a.month < b.month)
    || (a.year == b.year && a.month == b.month && a.day < b.day)
  }

  // ------------------------------------------------------- stepping by days

  function NextDay(d: Date): Date {
    if d.day < DaysInMonth(d.year, d.month) then Date(d.year, d.month, d.day + 1)
    else if d.month < 12 then Date(d.year, d.month + 1, 1)
    else Date(d.year + 1, 1, 1)
  }

  function PrevDay(d: Date): Date {
    if d.day > 1 then Date(d.year, d.month, d.day - 1)
    else if d.month > 1 then Date(d.year, d.month - 1, DaysInMonth(d.year, d.month - 1))
    else Date(d.year - 1, 12, 31)
  }

  /** The date `n` days after `d` (before it, for negative `n`). */
  function AddDays(d: Date, n: int): Date
    decreases if n < 0 then -n else n
  {
    if n == 0 then d
    else if n > 0 then AddDays(NextDay(d), n - 1)
    else AddDays(PrevDay(d), n + 1)
  }

  /** 0 for Sunday, 1 for Monday, ..., 6 for Saturday (as `getDay`);
      0000-01-01 was a Saturday. */
  function Weekday(d: Date): (r: int)
    requires 1 <= d.month <= 12
    ensures 0 <= r <= 6
  {
    (Ordinal(d) + 6) % 7
  }

  /** ECMAScript's MakeDay on the local calendar: the day `d` of month `m0`
      (counted from 0) of year `y`, where a month outside 0..11 moves into
      another year and a day outside the month rolls into the neighbouring
      months. `new Date(y, m0, d)` and the `setDate`, `setMonth` and
      `setFullYear` setters all land here. */
  function MakeDate(y: int, m0: int, d: int): (r: Date)
    ensures ValidDate(r)
  {
    var first := Date(y + m0 / 12, m0 % 12 + 1, 1);
    AddDaysOrdinal(first, d - 1);
    AddDays(first, d - 1)
  }

  // --------------------------------------------------------------- lemmas

  /** The count of multiples of `k` in [0, y) grows by one exactly at a multiple of `k`. */
  lemma DivStep(y: int, k: int)
    requires k == 4 || k == 100 || k == 400
    ensures (y + k) / k - (y + k - 1) / k == if y % k == 0 then 1 else 0
  {
    if k == 4 {
      DivStepAt4(y);
    } else if k == 100 {
      DivStepAt100(y);
    } else {
      DivStepAt400(y);
    }
  }

  lemma DivStepAt4(y: int)
    ensures (y + 4) / 4 - (y + 3) / 4 == if y % 4 == 0 then 1 else 0
  {
  }

  lemma DivStepAt100(y: int)
    ensures (y + 100) / 100 - (y + 99) / 100 == if y % 100 == 0 then 1 else 0
  {
  }

  lemma DivStepAt400(y: int)
    ensures (y + 400) / 400 - (y + 399) / 400 == if y % 400 == 0 then 1 else 0
  {
  }

  /** A year has `YearLength` days: 366 in a leap year, 365 otherwise. */
  lemma YearStep(y: int)
    ensures DaysBeforeYear(y + 1) == DaysBeforeYear(y) + YearLength(y)
  {
    DivStep(y, 4);
    DivStep(y, 100);
    DivStep(y, 400);
    MultiplesNest(y);
    var a, b, c := (y + 4) / 4 - (y + 3) / 4, (y + 100) / 100 - (y + 99) / 100, (y + 400) / 400 - (y + 399) / 400;
    assert YearLength(y) == 365 + a - b + c;
  }

  /** A multiple of 400 is one of 100, and a multiple of 100 one of 4. */
  lemma MultiplesNest(y: int)
    ensures y % 400 == 0 ==> y % 100 == 0
    ensures y % 100 == 0 ==> y % 4 == 0
  {
    if y % 400 == 0 {
      CenturyOf400(y);
    }
    if y % 100 == 0 {
      QuadOf100(y);
    }
  }

  lemma CenturyOf400(y: int)
    requires y % 400 == 0
    ensures y % 100 == 0
  {
    var q := y / 400;
    assert y == 100 * (4 * q);
  }

  lemma QuadOf100(y: int)
    requires y % 100 == 0
    ensures y % 4 == 0
  {
    var q := y / 100;
    assert y == 4 * (25 * q);
  }

  lemma {:induction false} DaysBeforeYearMonotone(a: int, b: int)
    requires a <= b
    ensures DaysBeforeYear(a) + 365 * (b - a) <= DaysBeforeYear(b)
    decreases b - a
  {
    if a < b {
      DaysBeforeYearMonotone(a, b - 1);
      YearStep(b - 1);
    }
  }

  /** Inside a valid date's year, the day number stays within the year. */
  lemma WithinYear(d: Date)
    requires ValidDate(d)
    ensures 0 <= Ordinal(d) - DaysBeforeYear(d.year) < YearLength(d.year)
  {
  }

  /** Moving to the next day adds one to the day number and stays valid. */
  lemma NextDayOrdinal(d: Date)
    requires ValidDate(d)
    ensures ValidDate(NextDay(d)) && Ordinal(NextDay(d)) == Ordinal(d) + 1
  {
    if d.day == DaysInMonth(d.year, d.month) && d.month == 12 {
      YearStep(d.year);
    }
  }

  /** Moving to the previous day subtracts one from the day number and stays valid. */
  lemma PrevDayOrdinal(d: Date)
    requires ValidDate(d)
    ensures ValidDate(PrevDay(d)) && Ordinal(PrevDay(d)) == Ordinal(d) - 1
  {
    if d.day == 1 && d.month == 1 {
      YearStep(d.year - 1);
    }
  }

  /** `AddDays` moves the day number by exactly `n` and keeps a date valid. */
  lemma {:induction false} AddDaysOrdinal(d: Date, n: int)
    requires ValidDate(d)
    ensures ValidDate(AddDays(d, n)) && Ordinal(AddDays(d, n)) == Ordinal(d) + n
    decreases if n < 0 then -n else n
  {
    if n > 0 {
      NextDayOrdinal(d);
      AddDaysOrdinal(NextDay(d), n - 1);
    } else if n < 0 {
      PrevDayOrdinal(d);
      AddDaysOrdinal(PrevDay(d), n + 1);
    }
  }

  /** On valid dates, the order of day numbers is the (year, month, day) order. */
  lemma OrdinalOrder(a: Date, b: Date)
    requires ValidDate(a) && ValidDate(b)
    ensures Before(a, b) <==> Ordinal(a) < Ordinal(b)
    ensures a == b <==> Ordinal(a) == Ordinal(b)
  {
    if a.year < b.year {
      EarlierYear(a, b);
    } else if b.year < a.year {
      EarlierYear(b, a);
    } else {
      SameYearOrder(a, b);
    }
  }

  /** Every day of an earlier year has a smaller day number. */
  lemma EarlierYear(a: Date, b: Date)
    requires ValidDate(a) && ValidDate(b) && a.year < b.year
    ensures Ordinal(a) < Ordinal(b)
  {
    WithinYear(a);
    WithinYear(b);
    YearStep(a.year);
    DaysBeforeYearMonotone(a.year + 1, b.year);
  }

  /** Within one year, day numbers follow the (month, day) order. */
  lemma SameYearOrder(a: Date, b: Date)
    requires ValidDate(a) && ValidDate(b) && a.year == b.year
    ensures Before(a, b) <==> Ordinal(a) < Ordinal(b)
    ensures a == b <==> Ordinal(a) == Ordinal(b)
  {
  }

  /** A valid date is `AddDays(d, n)` exactly when its day number is `n` more than `d`'s. */
  lemma AddDaysIs(d: Date, n: int, e: Date)
    requires ValidDate(d) && ValidDate(e)
    ensures AddDays(d, n) == e <==> Ordinal(e) == Ordinal(d) + n
  {
    AddDaysOrdinal(d, n);
    OrdinalOrder(AddDays(d, n), e);
  }

  /** Adding days twice is adding their sum. */
  lemma AddDaysAdd(d: Date, m: int, n: int)
    requires ValidDate(d)
    ensures AddDays(AddDays(d, m), n) == AddDays(d, m + n)
  {
    var e := AddDays(d, m);
    AddDaysOrdinal(d, m);
    AddDaysOrdinal(e, n);
    AddDaysIs(d, m + n, AddDays(e, n));
  }

  /** Adding a positive number of days gives a strictly later date. */
  lemma AddDaysLater(d: Date, n: int)
    requires ValidDate(d) && n > 0
    ensures Before(d, AddDays(d, n))
  {
    AddDaysOrdinal(d, n);
    OrdinalOrder(d, AddDays(d, n));
  }

  /** The day of the week advances by `n` (mod 7) when `n` days are added. */
  lemma WeekdayAddDays(d: Date, n: int)
    requires ValidDate(d)
    ensures ValidDate(AddDays(d, n)) && Weekday(AddDays(d, n)) == (Weekday(d) + n) % 7
  {
    AddDaysOrdinal(d, n);
    var o := Ordinal(d) + 6;
    ModShift(o / 7, o % 7 + n);
    assert o + n == 7 * (o / 7) + (o % 7 + n);
  }

  lemma ModShift(q: int, x: int)
    ensures (7 * q + x) % 7 == x % 7
  {
  }

  /** The first day of a month plus `d - 1` days is day `d` of that month, while `d` fits. */
  lemma FromFirstOfMonth(y: int, m: int, d: int)
    requires 1 <= m <= 12 && 1 <= d <= DaysInMonth(y, m)
    ensures AddDays(Date(y, m, 1), d - 1) == Date(y, m, d)
  {
    AddDaysIs(Date(y, m, 1), d - 1, Date(y, m, d));
  }

  /** The month after (y, m). */
  function NextMonth(y: int, m: int): (int, int) {
    if m == 12 then (y + 1, 1) else (y, m + 1)
  }

  /** A day within the month is kept; a day past the month's end (up to 31)
      rolls into the next month: Jan 31 of a leap year one month on is Mar 2. */
  lemma MakeDateRollover(y: int, m0: int, d: int)
    requires 1 <= d <= 31
    ensures var (ty, tm) := (y + m0 / 12, m0 % 12 + 1);
            var (ny, nm) := NextMonth(ty, tm);
            MakeDate(y, m0, d) ==
              if d <= DaysInMonth(ty, tm) then Date(ty, tm, d)
              else Date(ny, nm, d - DaysInMonth(ty, tm))
  {
    var ty, tm := y + m0 / 12, m0 % 12 + 1;
    var first := Date(ty, tm, 1);
    var len := DaysInMonth(ty, tm);
    if d <= len {
      FromFirstOfMonth(ty, tm, d);
    } else {
      var (ny, nm) := NextMonth(ty, tm);
      var last := Date(ty, tm, len);
      NextDayOrdinal(last);
      assert NextDay(last) == Date(ny, nm, 1);
      AddDaysIs(first, len - 1, last);
      AddDaysIs(Date(ny, nm, 1), d - len - 1, Date(ny, nm, d - len));
      AddDaysIs(first, d - 1, Date(ny, nm, d - len));
    }
  }

  /** Day 0 of a month is the last day of the month before:
      `new Date(y, m, 0).getDate()` is the length of month `m` (counted from 1). */
  lemma MakeDateDayZero(y: int, m0: int)
    ensures var (ty, tm) := (y + m0 / 12, m0 % 12 + 1);
            MakeDate(y, m0, 0) ==
              if tm == 1 then Date(ty - 1, 12, 31) else Date(ty, tm - 1, DaysInMonth(ty, tm - 1))
  {
    var first := Date(y + m0 / 12, m0 % 12 + 1, 1);
    PrevDayOrdinal(first);
    assert AddDays(first, -1) == AddDays(PrevDay(first), 0);
  }

  /** A date's own fields, fed back through MakeDate with a shifted day,
      give the date that many days later: `d.setDate(d.getDate() + n)`. */
  lemma MakeDateShift(d: Date, n: int)
    requires ValidDate(d)
    ensures MakeDate(d.year, d.month - 1, d.day + n) == AddDays(d, n)
  {
    MakeDateInYear(d.year, d.month, d.day + n);
    AddDaysIs(d, n, MakeDate(d.year, d.month - 1, d.day + n));
  }

  /** A valid date's own fields give the date back. */
  lemma MakeDateOfFields(d: Date)
    requires ValidDate(d)
    ensures MakeDate(d.year, d.month - 1, d.day) == d
  {
    MakeDateShift(d, 0);
    assert AddDays(d, 0) == d;
  }

  /** With its month in 1..12, MakeDate counts the day from the first of that month. */
  lemma MakeDateInYear(y: int, m: int, day: int)
    requires 1 <= m <= 12
    ensures Ordinal(MakeDate(y, m - 1, day)) == Ordinal(Date(y, m, 1)) + day - 1
  {
    assert (m - 1) / 12 == 0 && (m - 1) % 12 + 1 == m;
    AddDaysOrdinal(Date(y, m, 1), day - 1);
  }
}
