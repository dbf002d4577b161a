/** The next start date `markTaskDone` writes for a recurring task: the
    anchor date (the task's own ISO `@start`, else today), moved on by the
    task's rule, printed the way the code prints it — including the `NaN`
    fields an Invalid Date produces and the days past a month's end that
    `Date` rolls into the following month. */
module Recurrence {
  import opened Wrappers
  import opened Text
  import opened Calendar
  import opened JsDates
  import opened Decorations
  import opened DateResolver
  import opened RecurrenceRules

  // ---------------------------------------------------------- specification

  /** The date the rule counts from: the ISO prefix of the line's first
      `@start(...)` read by `new Date` (possibly the Invalid Date, None), or
      today when there is no such decoration or it does not start with a date. */
  function Anchor(line: string, today: Date): (r: Option<Date>)
    requires ValidDate(today)
    ensures r.Some? ==> ValidDate(r.value)
    ensures Decoration(line, StartTag).None? ==> r == Some(today)
    ensures Decoration(line, StartTag).Some? && !IsIsoPrefix(Decoration(line, StartTag).value) ==> r == Some(today)
    ensures Decoration(line, StartTag).Some? && IsIsoPrefix(Decoration(line, StartTag).value)
            ==> r == IsoDate(Decoration(line, StartTag).value)
  {
    match Decoration(line, StartTag)
    case Some(p) => if IsIsoPrefix(p) then IsoDate(p) else Some(today)
    case None => Some(today)
  }

  /** The date an interval rule moves the anchor to, through `setDate`,
      `setMonth` or `setFullYear`; the Invalid Date stays invalid. */
  function Advanced(anchor: Option<Date>, n: nat, u: Unit): (r: Option<Date>)
    ensures r.Some? <==> anchor.Some?
  {
    match anchor
    case None => None
    case Some(d) =>
      match u
      case Day => Some(MakeDate(d.year, d.month - 1, d.day + n))
      case Week => Some(MakeDate(d.year, d.month - 1, d.day + n * 7))
      case Month => Some(MakeDate(d.year, d.month - 1 + n, d.day))
      case Year => Some(MakeDate(d.year + n, d.month - 1, d.day))
  }

  /** The three numbers the code prints as `year-month-day`. */
  datatype Stamp = Stamp(year: Num, month: Num, day: Num)

  /** The fields a `Date` reads back through its getters (the month counted
      from 1): all NaN for the Invalid Date. */
  function Fields(t: Option<Date>): Stamp {
    if t.Some? then Stamp(Int(t.value.year), Int(t.value.month), Int(t.value.day))
    else Stamp(NaN, NaN, NaN)
  }

  function StampText(s: Stamp): string {
    YmdText(s.year, s.month, s.day)
  }

  /** `new Date(y, m, 0).getDate()`: the length of month `m` (counted from 1)
      of the year the constructor makes of `y`. */
  function MonthLength(y: Num, m: Num): Num {
    if y.Int? && m.Int? then Int(MakeDate(ConstructorYear(y.v), m.v, 0).day) else NaN
  }

  /** The day a monthly or yearly rule picks in a month of length `len`. */
  function DayIn(spec: DaySpec, len: Num): Num {
    match spec
    case LastDay => len
    case DayNumber(n) => Min(n, len)
  }

  /** The year and month (from 1) after the anchor's month; NaN for both when
      the anchor is invalid. */
  function FollowingMonth(anchor: Option<Date>): (Num, Num) {
    if anchor.Some? then
      var (y, m) := NextMonth(anchor.value.year, anchor.value.month);
      (Int(y), Int(m))
    else (NaN, NaN)
  }

  /** How many days after weekday `c` the weekday `t` next comes: 1..7, a
      whole week when they are the same day. */
  function Offset(c: int, t: int): (r: int)
    requires 0 <= c <= 6 && 0 <= t <= 6
    ensures 1 <= r <= 7 && (c + r) % 7 == t
  {
    var x := (t - c + 7) % 7;
    if x == 0 then 7 else x
  }

  /** The smallest offset to any listed weekday, 8 for an empty list. */
  function SoonestOffset(c: int, days: seq<int>): int
    requires 0 <= c <= 6 && WeekdayList(days)
  {
    if days == [] then 8
    else
      var m := SoonestOffset(c, days[..|days| - 1]);
      var d := Offset(c, days[|days| - 1]);
      if d < m then d else m
  }

  lemma SoonestStep(c: int, days: seq<int>, i: nat)
    requires 0 <= c <= 6 && WeekdayList(days) && i < |days|
    ensures SoonestOffset(c, days[..i + 1]) ==
              var m := SoonestOffset(c, days[..i]);
              if Offset(c, days[i]) < m then Offset(c, days[i]) else m
  {
    assert days[..i + 1][..i] == days[..i];
  }

  /** The fields of the start date a rule gives from an anchor, or None
      when the code leaves `nextStart` null (a weekday rule on an Invalid
      Date). */
  function NextStamp(rule: Rule, anchor: Option<Date>): (r: Option<Stamp>)
    requires anchor.Some? ==> ValidDate(anchor.value)
    requires rule.Weekly? ==> WeekdayList(rule.days)
    ensures r.None? ==> rule.Weekly?
  {
    match rule
    case Interval(n, u) => Some(Fields(Advanced(anchor, n, u)))
    case Monthly(spec) =>
      var (y, m) := FollowingMonth(anchor);
      Some(Stamp(y, m, DayIn(spec, MonthLength(y, m))))
    case Yearly(mn, spec) =>
      var y := if anchor.Some? then Int(anchor.value.year + 1) else NaN;
      Some(Stamp(y, Int(mn), DayIn(spec, MonthLength(y, Int(mn)))))
    case Weekly(days) =>
      if anchor.None? then None
      else
        var k := SoonestOffset(Weekday(anchor.value), days);
        if k < 8 then Some(Fields(Some(AddDays(anchor.value, k)))) else None
  }

  /** The start date a rule gives from an anchor, printed. */
  function NextStart(rule: Rule, anchor: Option<Date>): (r: Option<string>)
    requires anchor.Some? ==> ValidDate(anchor.value)
    requires rule.Weekly? ==> WeekdayList(rule.days)
  {
    match NextStamp(rule, anchor)
    case Some(s) => Some(StampText(s))
    case None => None
  }

  /** The `nextStart` of a line whose `@recur` payload is `payload`: None when
      the payload is no rule. */
  function NextStartOf(payload: string, line: string, today: Date): (r: Option<string>)
    requires ValidDate(today)
    ensures ParseRule(payload).None? ==> r.None?
  {
    match ParseRule(payload)
    case None => None
    case Some(rule) => NextStart(rule, Anchor(line, today))
  }

  // ---------------------------------------------------------- the code

  /** `let startDate = new Date(); ... if (iso) startDate = new Date(...)`. */
  method StartDate(line: string, today: Date) returns (d: JsDate)
    requires ValidDate(today)
    ensures fresh(d) && d.Valid() && d.time == Anchor(line, today)
  {
    d := new JsDate.Of(Some(today));
    var startMatch := Decoration(line, StartTag);
    if startMatch.Some? && IsIsoPrefix(startMatch.value) {
      d := new JsDate.Of(IsoDate(startMatch.value));
    }
  }

  /** `new Date(y, m, 0).getDate()`. */
  method MonthEnd(y: Num, m: Num) returns (len: Num)
    ensures len == MonthLength(y, m)
  {
    var e := new JsDate.FromFields(y, m, Int(0));
    len := e.GetDate();
  }

  /** `nextDate = new Date(startDate); nextDate.setDate(startDate.getDate() + diff)`. */
  method DaysAfter(startDate: JsDate, diff: int) returns (nextDate: JsDate)
    requires startDate.Valid() && startDate.time.Some?
    ensures fresh(nextDate) && nextDate.Valid()
    ensures nextDate.time == Some(AddDays(startDate.time.value, diff))
  {
    nextDate := new JsDate.Of(startDate.time);
    nextDate.SetDate(startDate.GetDate().Plus(diff));
    MakeDateShift(startDate.time.value, diff);
  }

  /** The weekday loop: the soonest listed weekday after the start, and a new
      `Date` on that day, or null when the start is invalid or nothing is
      listed. */
  method SoonestWeekday(startDate: JsDate, days: seq<int>) returns (minDiff: int, nextDate: JsDate?)
    requires startDate.Valid() && WeekdayList(days)
    ensures startDate.time.None? ==> nextDate == null
    ensures startDate.time.Some? ==>
              minDiff == SoonestOffset(Weekday(startDate.time.value), days)
              && (nextDate != null <==> minDiff < 8)
    ensures nextDate != null ==>
              (startDate.time.Some? && nextDate.Valid()
               && nextDate.time == Some(AddDays(startDate.time.value, minDiff)))
  {
    minDiff := 8;
    nextDate := null;
    var currentDay := startDate.GetDay();
    ghost var c := if startDate.time.Some? then Weekday(startDate.time.value) else 0;
    var i := 0;
    while i < |days|
      invariant 0 <= i <= |days|
      invariant startDate.time.None? ==> nextDate == null
      invariant startDate.time.Some? ==>
                  minDiff == SoonestOffset(Weekday(startDate.time.value), days[..i])
                  && (nextDate != null <==> minDiff < 8)
      invariant nextDate != null ==>
                  (startDate.time.Some? && nextDate.Valid()
                   && nextDate.time == Some(AddDays(startDate.time.value, minDiff)))
      invariant nextDate != startDate
    {
      SoonestStep(c, days, i);
      var targetDay := days[i];
      if currentDay.Int? {
        var diff := (targetDay - currentDay.v + 7) % 7;
        if diff == 0 {
          diff := 7;
        }
        assert diff == Offset(c, targetDay);
        if diff < minDiff {
          minDiff := diff;
          nextDate := DaysAfter(startDate, diff);
        }
      }
      i := i + 1;
    }
    assert days[..i] == days;
  }

  /** An interval rule: one setter call on the start date, then its fields printed. */
  method IntervalNext(startDate: JsDate, n: nat, u: Unit) returns (nextStart: string)
    requires startDate.Valid()
    modifies startDate
    ensures Some(nextStart) == NextStart(Interval(n, u), old(startDate.time))
  {
    ghost var anchor := startDate.time;
    match u {
      case Day => startDate.SetDate(startDate.GetDate().Plus(n));
      case Week => startDate.SetDate(startDate.GetDate().Plus(n * 7));
      case Month => startDate.SetMonth(startDate.GetMonth().Plus(n));
      case Year => startDate.SetFullYear(startDate.GetFullYear().Plus(n));
    }
    assert startDate.time == Advanced(anchor, n, u);
    var year, month, day := startDate.GetFullYear(), startDate.GetMonth().Plus(1), startDate.GetDate();
    assert Stamp(year, month, day) == Fields(startDate.time);
    nextStart := YmdText(year, month, day);
  }

  /** A monthly rule: the month after the start's, December wrapping to January. */
  method MonthlyNext(startDate: JsDate, spec: DaySpec) returns (nextStart: string)
    requires startDate.Valid()
    ensures Some(nextStart) == NextStart(Monthly(spec), startDate.time)
  {
    var year := startDate.GetFullYear();
    var month := startDate.GetMonth().Plus(1);
    if month == Int(12) {
      year := year.Plus(1);
      month := Int(1);
    } else {
      month := month.Plus(1);
    }
    assert (year, month) == FollowingMonth(startDate.time);
    var len := MonthEnd(year, month);
    assert Some(Stamp(year, month, DayIn(spec, len))) == NextStamp(Monthly(spec), startDate.time);
    nextStart := YmdText(year, month, DayIn(spec, len));
  }

  /** A yearly rule: always the year after the start's. */
  method YearlyNext(startDate: JsDate, monthNum: int, spec: DaySpec) returns (nextStart: string)
    requires startDate.Valid()
    ensures Some(nextStart) == NextStart(Yearly(monthNum, spec), startDate.time)
  {
    var year := startDate.GetFullYear().Plus(1);
    var len := MonthEnd(year, Int(monthNum));
    assert Some(Stamp(year, Int(monthNum), DayIn(spec, len))) == NextStamp(Yearly(monthNum, spec), startDate.time);
    nextStart := YmdText(year, Int(monthNum), DayIn(spec, len));
  }

  /** A weekday rule: the loop, then the new date printed if there is one. */
  method WeeklyNext(startDate: JsDate, days: seq<int>) returns (nextStart: Option<string>)
    requires startDate.Valid() && WeekdayList(days)
    ensures nextStart == NextStart(Weekly(days), startDate.time)
  {
    nextStart := None;
    var minDiff, nextDate := SoonestWeekday(startDate, days);
    if nextDate != null {
      var year, month, day := nextDate.GetFullYear(), nextDate.GetMonth().Plus(1), nextDate.GetDate();
      assert Stamp(year, month, day) == Fields(nextDate.time);
      nextStart := Some(YmdText(year, month, day));
    }
  }

  /** `markTaskDone`'s computation of `nextStart` from the `@recur` payload
      and the whole line: the four rule shapes in order, each on a fresh
      `Date` taken from the line's start decoration or today. */
  method ComputeNextStart(payload: string, line: string, today: Date) returns (nextStart: Option<string>)
    requires ValidDate(today)
    ensures nextStart == NextStartOf(payload, line, today)
  {
    var rule := ParseRule(payload);
    if rule.None? {
      return None;
    }
    var startDate := StartDate(line, today);
    match rule.value {
      case Interval(n, u) =>
        var s := IntervalNext(startDate, n, u);
        nextStart := Some(s);
      case Monthly(spec) =>
        var s := MonthlyNext(startDate, spec);
        nextStart := Some(s);
      case Yearly(monthNum, spec) =>
        var s := YearlyNext(startDate, monthNum, spec);
        nextStart := Some(s);
      case Weekly(days) =>
        nextStart := WeeklyNext(startDate, days);
    }
  }

  // ------------------------------------------------------------------ lemmas

  /** The start date the code writes is read back as the anchor of the next
      completion: a line whose first `@start` holds a printed date counts from
      that date. */
  lemma AnchorOfPrintedStart(line: string, d: Date, today: Date)
    requires ValidDate(today) && ValidDate(d) && FourDigitYear(d)
    requires Decoration(line, StartTag) == Some(ToLocalYMD(d))
    ensures Anchor(line, today) == Some(d)
  {
    IsoDateOfYmd(d);
  }

  /** A relative start such as `today+3d` is not a date to the recurrence
      code, so the rule counts from today, not from the day it names. */
  lemma RelativeStartAnchorsToday(line: string, today: Date)
    requires ValidDate(today) && Decoration(line, StartTag).Some?
    requires RelativeDays(Decoration(line, StartTag).value).Some?
    ensures Anchor(line, today) == Some(today)
  {
    RelativeStart(Decoration(line, StartTag).value, today);
  }

  /** An anchor the code cannot read as a date (an ISO prefix with month 13,
      say) leaves a weekday rule without a next start, and makes every other
      rule produce NaN where the year and the day would be (and the month,
      unless a yearly rule names it). */
  lemma InvalidAnchor(rule: Rule)
    requires rule.Weekly? ==> WeekdayList(rule.days)
    ensures rule.Interval? || rule.Monthly? ==> NextStamp(rule, None) == Some(Stamp(NaN, NaN, NaN))
    ensures rule.Yearly? ==> NextStamp(rule, None) == Some(Stamp(NaN, Int(rule.month), NaN))
    ensures rule.Weekly? ==> NextStamp(rule, None) == None
  {
    if rule.Monthly? {
      assert DayIn(rule.day, NaN) == NaN;
    }
  }

  /** An Invalid Date prints as `NaN-NaN-NaN`. */
  lemma InvalidText()
    ensures StampText(Stamp(NaN, NaN, NaN)) == "NaN-NaN-NaN"
  {
    assert PadStart2("NaN") == "NaN";
  }

  /** `Nd` and `Nw` move the anchor on by exactly N or 7N days. */
  lemma IntervalDays(d: Date, n: nat)
    requires ValidDate(d)
    ensures Advanced(Some(d), n, Day) == Some(AddDays(d, n))
    ensures Advanced(Some(d), n, Week) == Some(AddDays(d, 7 * n))
  {
    MakeDateShift(d, n);
    MakeDateShift(d, n * 7);
  }

  /** `Nm` keeps the day of the month when the month N on has it, and
      otherwise runs the surplus days into the month after that. */
  lemma IntervalMonths(d: Date, n: nat)
    requires ValidDate(d)
    ensures var (ty, tm) := (d.year + (d.month - 1 + n) / 12, (d.month - 1 + n) % 12 + 1);
            Advanced(Some(d), n, Month) ==
              Some(if d.day <= DaysInMonth(ty, tm) then Date(ty, tm, d.day)
                   else Date(NextMonth(ty, tm).0, NextMonth(ty, tm).1, d.day - DaysInMonth(ty, tm)))
  {
    MakeDateRollover(d.year, d.month - 1 + n, d.day);
  }

  /** One month after 31 January 2024 is 2 March 2024. */
  lemma MonthOverflowExample()
    ensures Advanced(Some(Date(2024, 1, 31)), 1, Month) == Some(Date(2024, 3, 2))
  {
    IntervalMonths(Date(2024, 1, 31), 1);
  }

  /** `Ny` keeps month and day, except that 29 February in a year N on that
      is not a leap year becomes 1 March. */
  lemma IntervalYears(d: Date, n: nat)
    requires ValidDate(d)
    ensures Advanced(Some(d), n, Year) ==
              Some(if d.day <= DaysInMonth(d.year + n, d.month) then Date(d.year + n, d.month, d.day)
                   else Date(d.year + n, 3, 1))
    ensures d.day > DaysInMonth(d.year + n, d.month) ==> d.month == 2 && d.day == 29
  {
    MakeDateRollover(d.year + n, d.month - 1, d.day);
    assert (d.month - 1) / 12 == 0 && (d.month - 1) % 12 + 1 == d.month;
  }

  /** `new Date(y, m, 0).getDate()` is the length of month `m`, for a year the
      constructor does not move into the 1900s. */
  lemma MonthLengthIs(y: int, m: int)
    requires !(0 <= y <= 99) && 1 <= m <= 12
    ensures MonthLength(Int(y), Int(m)) == Int(DaysInMonth(y, m))
  {
    MakeDateDayZero(y, m);
    if m < 12 {
      assert m / 12 == 0 && m % 12 + 1 == m + 1;
    } else {
      assert m / 12 == 1 && m % 12 + 1 == 1;
    }
  }

  /** The day a monthly or yearly rule asks for, in a month of `len` days:
      the last day, or the requested day when the month has it. */
  function Wanted(spec: DaySpec, len: int): int
    requires spec.DayNumber? ==> spec.n.Int?
  {
    if spec.LastDay? then len else if spec.n.v <= len then spec.n.v else len
  }

  /** A monthly rule lands in the month after the anchor's, on the requested
      day clamped to that month's length (or its last day): a real date,
      after the anchor. */
  lemma MonthlyNextDate(d: Date, spec: DaySpec)
    requires ValidDate(d) && d.year >= 100
    requires spec.DayNumber? ==> spec.n.Int? && spec.n.v >= 1
    ensures var (y, m) := NextMonth(d.year, d.month);
            var e := Date(y, m, Wanted(spec, DaysInMonth(y, m)));
            && ValidDate(e) && Before(d, e)
            && NextStamp(Monthly(spec), Some(d)) == Some(Fields(Some(e)))
  {
    var (y, m) := NextMonth(d.year, d.month);
    MonthLengthIs(y, m);
  }

  /** `day=31` from 31 January 2024 gives 29 February; `day=last` from
      15 February 2024 gives 31 March. */
  lemma MonthlyExamples()
    ensures NextStamp(Monthly(DayNumber(Int(31))), Some(Date(2024, 1, 31)))
              == Some(Fields(Some(Date(2024, 2, 29))))
    ensures NextStamp(Monthly(LastDay), Some(Date(2024, 2, 15)))
              == Some(Fields(Some(Date(2024, 3, 31))))
  {
    MonthlyNextDate(Date(2024, 1, 31), DayNumber(Int(31)));
    MonthlyNextDate(Date(2024, 2, 15), LastDay);
  }

  /** `day=0` is accepted by the pattern and gives day 0, printed `00`,
      which is no date at all. */
  lemma MonthlyDayZero(d: Date)
    requires ValidDate(d) && d.year >= 100
    ensures var (y, m) := NextMonth(d.year, d.month);
            NextStamp(Monthly(DayNumber(Int(0))), Some(d)) == Some(Stamp(Int(y), Int(m), Int(0)))
  {
    var (y, m) := NextMonth(d.year, d.month);
    MonthLengthIs(y, m);
  }

  /** A yearly rule with a month 1..12 lands in that month of the year after
      the anchor's, on the requested day clamped to the month (or its last
      day): a real date, after the anchor. */
  lemma YearlyNextDate(d: Date, month: int, spec: DaySpec)
    requires ValidDate(d) && d.year >= 99 && 1 <= month <= 12
    requires spec.DayNumber? ==> spec.n.Int? && spec.n.v >= 1
    ensures var e := Date(d.year + 1, month, Wanted(spec, DaysInMonth(d.year + 1, month)));
            && ValidDate(e) && Before(d, e)
            && NextStamp(Yearly(month, spec), Some(d)) == Some(Fields(Some(e)))
  {
    MonthLengthIs(d.year + 1, month);
  }

  /** `yearly, month=feb, day=29` from a leap day gives 28 February of the
      following year. */
  lemma YearlyLeapExample()
    ensures NextStamp(Yearly(2, DayNumber(Int(29))), Some(Date(2024, 2, 29)))
              == Some(Fields(Some(Date(2025, 2, 28))))
  {
    YearlyNextDate(Date(2024, 2, 29), 2, DayNumber(Int(29)));
  }

  /** The soonest offset over a non-empty list is 1..7, reached by a listed
      day and no larger than the offset of any listed day. */
  lemma {:induction false} SoonestOffsetIs(c: int, days: seq<int>)
    requires 0 <= c <= 6 && WeekdayList(days) && |days| >= 1
    ensures 1 <= SoonestOffset(c, days) <= 7
    ensures exists i :: 0 <= i < |days| && Offset(c, days[i]) == SoonestOffset(c, days)
    ensures forall i :: 0 <= i < |days| ==> SoonestOffset(c, days) <= Offset(c, days[i])
  {
    var init := days[..|days| - 1];
    var last := |days| - 1;
    if init == [] {
      assert Offset(c, days[last]) == SoonestOffset(c, days);
    } else {
      assert WeekdayList(init) by {
        forall i | 0 <= i < |init| ensures 0 <= init[i] <= 6 {
          assert init[i] == days[i];
        }
      }
      SoonestOffsetIs(c, init);
      var j :| 0 <= j < |init| && Offset(c, init[j]) == SoonestOffset(c, init);
      assert init[j] == days[j];
      if Offset(c, days[last]) < SoonestOffset(c, init) {
        assert Offset(c, days[last]) == SoonestOffset(c, days);
      } else {
        assert Offset(c, days[j]) == SoonestOffset(c, days);
      }
      forall i | 0 <= i < |days| ensures SoonestOffset(c, days) <= Offset(c, days[i]) {
        if i < last {
          assert init[i] == days[i];
        }
      }
    }
  }

  /** A day `j` (1..7) after a weekday `c` falls on weekday `t` exactly when
      `j` is the offset from `c` to `t`. */
  lemma OffsetUnique(c: int, t: int, j: int)
    requires 0 <= c <= 6 && 0 <= t <= 6 && 1 <= j <= 7
    ensures (c + j) % 7 == t <==> Offset(c, t) == j
  {
  }

  /** `e` is a date whose weekday is in the list. */
  predicate OnListedDay(e: Date, days: seq<int>) {
    ValidDate(e) && Weekday(e) in days
  }

  /** A weekday rule moves the anchor to the first later day (one to seven
      days on) whose weekday is listed: the same weekday as the anchor comes a
      week later. */
  lemma WeeklyNextDate(d: Date, days: seq<int>)
    requires ValidDate(d) && WeekdayList(days) && |days| >= 1
    ensures var k := SoonestOffset(Weekday(d), days);
            && 1 <= k <= 7
            && NextStamp(Weekly(days), Some(d)) == Some(Fields(Some(AddDays(d, k))))
            && OnListedDay(AddDays(d, k), days)
            && forall j :: 1 <= j < k ==> !OnListedDay(AddDays(d, j), days)
  {
    var c := Weekday(d);
    var k := SoonestOffset(c, days);
    SoonestOffsetIs(c, days);
    var i :| 0 <= i < |days| && Offset(c, days[i]) == k;
    OffsetLands(d, days[i]);
    assert Weekday(AddDays(d, k)) == days[i];
    forall j | 1 <= j < k ensures !OnListedDay(AddDays(d, j), days) {
      SkippedDay(d, days, j);
    }
  }

  /** The offset to a weekday lands on that weekday. */
  lemma OffsetLands(d: Date, t: int)
    requires ValidDate(d) && 0 <= t <= 6
    ensures var e := AddDays(d, Offset(Weekday(d), t)); ValidDate(e) && Weekday(e) == t
  {
    WeekdayAddDays(d, Offset(Weekday(d), t));
  }

  /** A day before the soonest offset is not on a listed weekday. */
  lemma SkippedDay(d: Date, days: seq<int>, j: int)
    requires ValidDate(d) && WeekdayList(days) && |days| >= 1
    requires 1 <= j < SoonestOffset(Weekday(d), days)
    ensures !OnListedDay(AddDays(d, j), days)
  {
    var c := Weekday(d);
    SoonestOffsetIs(c, days);
    WeekdayAddDays(d, j);
    if Weekday(AddDays(d, j)) in days {
      var t :| 0 <= t < |days| && days[t] == Weekday(AddDays(d, j));
      OffsetUnique(c, days[t], j);
    }
  }

  /** `mon,wed,fri` from Wednesday 31 January 2024 gives Friday 2 February. */
  lemma WeeklyExample()
    ensures NextStamp(Weekly([1, 3, 5]), Some(Date(2024, 1, 31))) == Some(Fields(Some(Date(2024, 2, 2))))
  {
    var d := Date(2024, 1, 31);
    assert Weekday(d) == 3;
    assert SoonestOffset(3, [1, 3, 5]) == 2 by {
      assert [1, 3, 5][..2] == [1, 3] && [1, 3][..1] == [1] && [1][..0] == [];
    }
    AddDaysIs(d, 2, Date(2024, 2, 2));
  }
}
