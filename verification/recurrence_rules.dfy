/** The `@recur(...)` payloads `markTaskDone` understands, tried in this
    order: an interval `3d`/`2w`/`1m`/`1y`, `monthly, day=N|last`,
    `yearly, month=MM|mon, day=N|last`, and a comma-separated list of weekday
    names. Anything else is no rule at all. */
module RecurrenceRules {
  import opened Wrappers
  import opened Text
  import opened JsDates

  datatype Unit = Day | Week | Month | Year

  /** The captured `(\d+|last)`: `last` in lower case, or what `parseInt`
      makes of the rest, which is NaN for `LAST`, `Last` and the like. */
  datatype DaySpec = LastDay | DayNumber(n: Num)

  datatype Rule =
    | Interval(count: nat, unit: Unit)
    | Monthly(day: DaySpec)
    | Yearly(month: int, day: DaySpec)
    | Weekly(days: seq<int>)

  // ------------------------------------------------------------- intervals

  function UnitOf(c: char): Option<Unit> {
    match Lower(c)
    case 'd' => Some(Day)
    case 'w' => Some(Week)
    case 'm' => Some(Month)
    case 'y' => Some(Year)
    case _ => None
  }

  /** `^(\d+)([dwmy])$`, the letter in either case. */
  function ParseInterval(p: string): (r: Option<Rule>)
    ensures r.Some? ==> r.value.Interval? && |p| >= 2 && AllDigits(p[..|p| - 1])
                        && r.value.count == DigitsValue(p[..|p| - 1])
                        && UnitOf(p[|p| - 1]) == Some(r.value.unit)
  {
    if |p| >= 2 && AllDigits(p[..|p| - 1]) && UnitOf(p[|p| - 1]).Some?
    then Some(Interval(DigitsValue(p[..|p| - 1]), UnitOf(p[|p| - 1]).value))
    else None
  }

  // ----------------------------------------------------- monthly and yearly

  /** `(\d+|last)$` from the start of `v`, letters in either case. */
  function DaySpecOf(v: string): (r: Option<DaySpec>)
    ensures r == Some(LastDay) <==> v == "last"
  {
    if |v| >= 1 && AllDigits(v) then Some(DayNumber(Int(DigitsValue(v))))
    else if SameIgnoringCase(v, "last") then
      if v == "last" then Some(LastDay) else Some(DayNumber(NaN))
    else None
  }

  /** `^monthly,\s*day=(\d+|last)$`, letters in either case. */
  function ParseMonthly(p: string): (r: Option<Rule>)
    ensures r.Some? ==> r.value.Monthly?
  {
    if |p| >= 8 && SameIgnoringCase(p[..8], "monthly,") then
      var k := SpaceRunEnd(p, 8);
      if k + 4 <= |p| && SameIgnoringCase(p[k..k + 4], "day=") then
        match DaySpecOf(p[k + 4..])
        case Some(d) => Some(Monthly(d))
        case None => None
      else None
    else None
  }

  const MonthNames: seq<string> :=
    ["jan", "feb", "mar", "apr", "may", "jun", "jul", "aug", "sep", "oct", "nov", "dec"]

  /** `monthNames.indexOf(s)`: the position of `s` in the list, or -1. */
  function MonthIndex(s: string): (r: int)
    ensures -1 <= r < 12
    ensures r >= 0 ==> MonthNames[r] == s
    ensures r < 0 <==> s !in MonthNames
  {
    IndexIn(MonthNames, s)
  }

  /** The first position of `s` in `xs`, or -1. */
  function IndexIn(xs: seq<string>, s: string): (r: int)
    ensures -1 <= r < |xs|
    ensures r >= 0 ==> xs[r] == s && s !in xs[..r]
    ensures r < 0 <==> s !in xs
  {
    if xs == [] then -1
    else if xs[0] == s then 0
    else
      var k := IndexIn(xs[1..], s);
      assert xs == [xs[0]] + xs[1..];
      if k < 0 then -1 else
        assert xs[..k + 1] == [xs[0]] + xs[1..][..k];
        k + 1
  }

  predicate AllLetters(s: string) {
    forall i :: 0 <= i < |s| ==> IsAsciiLetter(s[i])
  }

  /** The month captured by `(\d{1,2}|[a-z]{3})`: one or two digits read as
      a number, or three letters looked up by name, 0 when no month has that
      name. */
  function MonthToken(t: string): (r: Option<int>)
    ensures r.Some? ==> 0 <= r.value <= 99
    ensures r.None? <==> !((1 <= |t| <= 2 && AllDigits(t)) || (|t| == 3 && AllLetters(t)))
    ensures 1 <= |t| <= 2 && AllDigits(t) ==> r == Some(DigitsValue(t))
    ensures |t| == 3 && AllLetters(t) ==> r == Some(MonthIndex(ToLower(t)) + 1)
  {
    if 1 <= |t| <= 2 && AllDigits(t) then
      assert DigitsValue(t) < 100 by { DigitsBelow(t); }
      Some(DigitsValue(t))
    else if |t| == 3 && AllLetters(t) then Some(MonthIndex(ToLower(t)) + 1)
    else None
  }

  lemma DigitsBelow(t: string)
    requires 1 <= |t| <= 2 && AllDigits(t)
    ensures DigitsValue(t) < 100
  {
    if |t| == 2 {
      assert DigitsValue(t[..1]) < 10;
    }
  }

  /** `^yearly,\s*month=(\d{1,2}|[a-z]{3}),\s*day=(\d+|last)$`, letters in
      either case. No month token holds a comma, so the token runs to the
      first comma after `month=`. */
  function ParseYearly(p: string): (r: Option<Rule>)
    ensures r.Some? ==> r.value.Yearly? && 0 <= r.value.month <= 99
  {
    if |p| >= 7 && SameIgnoringCase(p[..7], "yearly,") then YearlyMonthAt(p, SpaceRunEnd(p, 7))
    else None
  }

  /** `month=(\d{1,2}|[a-z]{3}),\s*day=(\d+|last)$` from position `k`. */
  function YearlyMonthAt(p: string, k: nat): (r: Option<Rule>)
    requires k <= |p|
    ensures r.Some? ==> r.value.Yearly? && 0 <= r.value.month <= 99
  {
    if k + 6 <= |p| && SameIgnoringCase(p[k..k + 6], "month=") then
      var c := IndexOfChar(p, ',', k + 6);
      if c < 0 then None else YearlyDayAt(p[k + 6..c], p, SpaceRunEnd(p, c + 1))
    else None
  }

  /** `day=(\d+|last)$` from position `k`, the month token being `month`. */
  function YearlyDayAt(month: string, p: string, k: nat): (r: Option<Rule>)
    requires k <= |p|
    ensures r.Some? ==> r.value.Yearly? && 0 <= r.value.month <= 99
  {
    if k + 4 <= |p| && SameIgnoringCase(p[k..k + 4], "day=") then
      match (MonthToken(month), DaySpecOf(p[k + 4..]))
      case (Some(m), Some(d)) => Some(Yearly(m, d))
      case _ => None
    else None
  }

  // --------------------------------------------------------------- weekdays

  /** The `weekdayMap` entry of a day name, Sunday being 0; letters in
      either case. */
  function WeekdayNumber(w: string): Option<int> {
    var l := ToLower(w);
    if l == "sun" then Some(0) else if l == "mon" then Some(1)
    else if l == "tue" then Some(2) else if l == "wed" then Some(3)
    else if l == "thu" then Some(4) else if l == "fri" then Some(5)
    else if l == "sat" then Some(6) else None
  }

  /** Weekday numbers, Sunday being 0. */
  predicate WeekdayList(days: seq<int>) {
    forall i :: 0 <= i < |days| ==> 0 <= days[i] <= 6
  }

  /** The numbers of a list of day names, or None if one is not a day name. */
  function WeekdayNumbers(names: seq<string>): (r: Option<seq<int>>)
    ensures r.None? <==> exists i :: 0 <= i < |names| && WeekdayNumber(names[i]).None?
    ensures r.Some? ==> |r.value| == |names| && WeekdayList(r.value)
                        && forall i :: 0 <= i < |names| ==> WeekdayNumber(names[i]) == Some(r.value[i])
  {
    if names == [] then Some([])
    else match (WeekdayNumber(names[0]), WeekdayNumbers(names[1..]))
      case (Some(d), Some(ds)) =>
        assert forall i :: 1 <= i < |names| ==> names[i] == names[1..][i - 1];
        Some([d] + ds)
      case (None, _) => None
      case (_, None) =>
        var i :| 0 <= i < |names[1..]| && WeekdayNumber(names[1..][i]).None?;
        assert WeekdayNumber(names[i + 1]).None?;
        None
  }

  /** `^((?:mon|...|sun)(?:,(?:mon|...|sun))*)$`: one or more day names
      separated by single commas, mapped to their numbers in list order. */
  function ParseWeekly(p: string): (r: Option<Rule>)
    ensures r.Some? ==> r.value.Weekly? && |r.value.days| >= 1 && WeekdayList(r.value.days)
    ensures r.Some? <==> forall i :: 0 <= i < |Split(p, ',')| ==> WeekdayNumber(Split(p, ',')[i]).Some?
    ensures r.Some? ==> |r.value.days| == |Split(p, ',')|
                        && forall i :: 0 <= i < |r.value.days| ==> WeekdayNumber(Split(p, ',')[i]) == Some(r.value.days[i])
  {
    var names := Split(p, ',');
    match WeekdayNumbers(names)
    case Some(days) => Some(Weekly(days))
    case None =>
      var i :| 0 <= i < |names| && WeekdayNumber(names[i]).None?;
      assert !WeekdayNumber(Split(p, ',')[i]).Some?;
      None
  }

  /** The rule of a payload: the four forms in the order the code tries them. */
  function ParseRule(p: string): (r: Option<Rule>)
    ensures r.Some? && r.value.Weekly? ==> |r.value.days| >= 1 && WeekdayList(r.value.days)
  {
    if ParseInterval(p).Some? then ParseInterval(p)
    else if ParseMonthly(p).Some? then ParseMonthly(p)
    else if ParseYearly(p).Some? then ParseYearly(p)
    else ParseWeekly(p)
  }

  // ------------------------------------------------------------ examples

  lemma IntervalExample()
    ensures ParseRule("2W") == Some(Interval(2, Week))
  {
    var p := "2W";
    assert p[..1] == "2" && "2"[..0] == [];
    assert DigitsValue("2") == 2;
    assert Lower(p[1]) == 'w';
  }

  lemma MonthlyExample()
    ensures ParseRule("monthly, day=last") == Some(Monthly(LastDay))
  {
    var p := "monthly, day=last";
    assert !AllDigits(p[..|p| - 1]) by { assert !IsDigit(p[0]); }
    assert p[..8] == "monthly,";
    assert SpaceRunEnd(p, 8) == 9 by { SpaceRunEndIs(p, 8, 9); }
    assert p[9..13] == "day=" && p[13..] == "last";
  }

  /** `LAST` matches the pattern but is not the string `last`, so the day is NaN. */
  lemma UpperLastIsNaN()
    ensures DaySpecOf("LAST") == Some(DayNumber(NaN))
  {
    assert SameIgnoringCase("LAST", "last") by {
      assert Lower('L') == 'l' && Lower('A') == 'a' && Lower('S') == 's' && Lower('T') == 't';
    }
  }

  lemma WeeklyExample()
    ensures ParseWeekly("mon,WED,fri") == Some(Weekly([1, 3, 5]))
  {
    WeeklyExampleSplit();
    WeeklyNumbersExample();
  }

  lemma WeeklyNumbersExample()
    ensures WeekdayNumbers(["mon", "WED", "fri"]) == Some([1, 3, 5])
  {
    DayNamesExample();
    var none: seq<string> := [];
    var l3 := ["fri"] + none;
    var l2 := ["WED"] + l3;
    var l1 := ["mon"] + l2;
    assert WeekdayNumbers(none) == Some([]);
    NumbersCons("fri", none, 5, []);
    NumbersCons("WED", l3, 3, [5] + []);
    var r: seq<int> := [1] + ([3] + ([5] + []));
    NumbersCons("mon", l2, 1, [3] + ([5] + []));
    assert WeekdayNumbers(l1) == Some(r);
    assert r == [1, 3, 5];
    assert l1 == ["mon", "WED", "fri"];
  }

  lemma DayNamesExample()
    ensures WeekdayNumber("mon") == Some(1) && WeekdayNumber("WED") == Some(3)
            && WeekdayNumber("fri") == Some(5)
  {
    assert ToLower("mon") == "mon";
    assert ToLower("WED") == "wed";
    assert ToLower("fri") == "fri";
  }

  lemma NumbersCons(n: string, rest: seq<string>, d: int, ds: seq<int>)
    requires WeekdayNumber(n) == Some(d) && WeekdayNumbers(rest) == Some(ds)
    ensures WeekdayNumbers([n] + rest) == Some([d] + ds)
  {
    assert ([n] + rest)[1..] == rest;
  }

  lemma WeeklyExampleSplit()
    ensures Split("mon,WED,fri", ',') == ["mon", "WED", "fri"]
  {
    var p, q, r := "mon,WED,fri", "WED,fri", "fri";
    assert IndexOfChar(r, ',', 0) == -1 by {
      assert forall k :: 0 <= k < |r| ==> r[k] != ',';
    }
    FirstSeparator("WED", ',', r);
    assert q == "WED" + [','] + r;
    assert q[..3] == "WED" && q[4..] == r;
    FirstSeparator("mon", ',', q);
    assert p == "mon" + [','] + q;
    assert p[..3] == "mon" && p[4..] == q;
  }

  /** A payload in none of the four forms is no rule, so nothing is rescheduled. */
  lemma UnknownRule()
    ensures ParseRule("every day") == None
  {
    var p := "every day";
    assert !IsDigit(p[0]);
    assert !AllDigits(p[..|p| - 1]) by { assert p[..|p| - 1][0] == p[0]; }
    assert !SameIgnoringCase(p[..8], "monthly,") by { assert p[..8][0] == 'e'; }
    assert !SameIgnoringCase(p[..7], "yearly,") by { assert p[..7][0] == 'e'; }
    assert IndexOfChar(p, ',', 0) == -1 by {
      assert forall k :: 0 <= k < |p| ==> p[k] != ',';
    }
    assert Split(p, ',') == [p];
    assert WeekdayNumber(p) == None by {
      assert |ToLower(p)| == 9;
    }
    assert ParseInterval(p) == None;
    assert ParseMonthly(p) == None;
    assert ParseYearly(p) == None;
    assert WeekdayNumbers([p]) == None;
  }

  // ------------------------------------------------ round trips, exclusivity

  /** The letter of each unit, as the plugin's own notes write it. */
  function UnitLetter(u: Unit): char {
    match u
    case Day => 'd'
    case Week => 'w'
    case Month => 'm'
    case Year => 'y'
  }

  /** An interval written as a decimal count and a unit letter reads back as
      that interval. */
  lemma IntervalReadsBack(n: nat, u: Unit)
    ensures ParseRule(NatToString(n) + [UnitLetter(u)]) == Some(Interval(n, u))
  {
    var d := NatToString(n);
    var p := d + [UnitLetter(u)];
    assert p[..|p| - 1] == d && p[|p| - 1] == UnitLetter(u);
    UnitOfLetter(u);
    assert ParseInterval(p) == Some(Interval(n, u));
  }

  lemma UnitOfLetter(u: Unit)
    ensures UnitOf(UnitLetter(u)) == Some(u)
  {
  }

  /** `monthly, day=N` reads back as day N of the month. */
  lemma MonthlyReadsBack(n: nat)
    ensures ParseRule("monthly, day=" + NatToString(n)) == Some(Monthly(DayNumber(Int(n))))
  {
    var d := NatToString(n);
    var p := "monthly, day=" + d;
    assert p[|p| - 1] == d[|d| - 1];
    assert ParseInterval(p).None?;
    assert p[..8] == "monthly,";
    SpaceRunEndIs(p, 8, 9);
    assert p[9..13] == "day=" && p[13..] == d;
  }

  /** A month token holds neither a comma nor whitespace. */
  lemma MonthTokenChars(t: string)
    requires MonthToken(t).Some?
    ensures forall k :: 0 <= k < |t| ==> t[k] != ',' && !IsSpace(t[k])
  {
  }

  /** `yearly, month=T, day=N` reads back as the month token's value and day
      N, for every month token `T` and every `N`. */
  lemma YearlyReadsBack(t: string, n: nat)
    requires MonthToken(t).Some?
    ensures ParseRule("yearly, month=" + t + ", day=" + NatToString(n))
            == Some(Yearly(MonthToken(t).value, DayNumber(Int(n))))
  {
    var d := NatToString(n);
    var p := "yearly, month=" + t + ", day=" + d;
    YearlyLayout(t, d);
    YearlyNotEarlier(p, d);
    YearlyFields(p, t, d);
    DigitsDay(d);
    ParseYearlyOf(p, 8, 14 + |t|, 16 + |t|, MonthToken(t).value, DayNumber(Int(n)));
  }

  /** Where the pieces of `yearly, month=T, day=N` sit. */
  lemma YearlyLayout(t: string, d: string)
    ensures var p, c := "yearly, month=" + t + ", day=" + d, 14 + |t|;
      && |p| == c + 6 + |d| && p[..7] == "yearly," && p[7] == ' ' && p[8..14] == "month="
      && p[14..c] == t && p[c] == ',' && p[c + 1] == ' ' && p[c + 2..c + 6] == "day="
      && p[c + 6..] == d && p[|p| - |d|..] == d
  {
  }

  /** The pieces the yearly reading finds in a payload laid out as
      `yearly, month=T, day=D`. */
  lemma YearlyFields(p: string, t: string, d: string)
    requires MonthToken(t).Some?
    requires var c := 14 + |t|;
      && |p| == c + 6 + |d| && p[..7] == "yearly," && p[7] == ' ' && p[8..14] == "month="
      && p[14..c] == t && p[c] == ',' && p[c + 1] == ' ' && p[c + 2..c + 6] == "day="
      && p[c + 6..] == d
    ensures var c := 14 + |t|;
      && |p| >= 7 && SameIgnoringCase(p[..7], "yearly,") && SpaceRunEnd(p, 7) == 8
      && SameIgnoringCase(p[8..14], "month=") && IndexOfChar(p, ',', 14) == c
      && SpaceRunEnd(p, c + 1) == c + 2 && SameIgnoringCase(p[c + 2..c + 6], "day=")
  {
    var c := 14 + |t|;
    assert p[8] == p[8..14][0] && p[c + 2] == p[c + 2..c + 6][0];
    SingleSpace(p, 7);
    SingleSpace(p, c + 1);
    FirstCommaAfter(p, 14, t);
    SameWord("yearly,");
    SameWord("month=");
    SameWord("day=");
  }

  /** A run of digits is a day number. */
  lemma DigitsDay(d: string)
    requires |d| >= 1 && AllDigits(d)
    ensures DaySpecOf(d) == Some(DayNumber(Int(DigitsValue(d))))
  {
  }

  /** The yearly reading once its pieces are known. */
  lemma ParseYearlyOf(p: string, k: nat, c: int, k2: nat, m: int, ds: DaySpec)
    requires |p| >= 7 && SameIgnoringCase(p[..7], "yearly,") && k == SpaceRunEnd(p, 7)
    requires k + 6 <= |p| && SameIgnoringCase(p[k..k + 6], "month=")
    requires c == IndexOfChar(p, ',', k + 6) && c >= 0
    requires k2 == SpaceRunEnd(p, c + 1) && k2 + 4 <= |p| && SameIgnoringCase(p[k2..k2 + 4], "day=")
    requires MonthToken(p[k + 6..c]) == Some(m) && DaySpecOf(p[k2 + 4..]) == Some(ds)
    ensures ParseYearly(p) == Some(Yearly(m, ds))
  {
    YearlyDayOf(p[k + 6..c], p, k2, m, ds);
    YearlyMonthOf(p, k, c, Some(Yearly(m, ds)));
    YearlyOf(p, Some(Yearly(m, ds)));
  }

  lemma YearlyDayOf(month: string, p: string, k: nat, m: int, ds: DaySpec)
    requires k + 4 <= |p| && SameIgnoringCase(p[k..k + 4], "day=")
    requires MonthToken(month) == Some(m) && DaySpecOf(p[k + 4..]) == Some(ds)
    ensures YearlyDayAt(month, p, k) == Some(Yearly(m, ds))
  {
  }

  lemma YearlyMonthOf(p: string, k: nat, c: int, r: Option<Rule>)
    requires k + 6 <= |p| && SameIgnoringCase(p[k..k + 6], "month=")
    requires c == IndexOfChar(p, ',', k + 6) && c >= 0
    requires YearlyDayAt(p[k + 6..c], p, SpaceRunEnd(p, c + 1)) == r
    ensures YearlyMonthAt(p, k) == r
  {
  }

  lemma YearlyOf(p: string, r: Option<Rule>)
    requires |p| >= 7 && SameIgnoringCase(p[..7], "yearly,") && YearlyMonthAt(p, SpaceRunEnd(p, 7)) == r
    ensures ParseYearly(p) == r
  {
  }

  /** A month token at `k` followed by a comma: that comma is the first one from `k`. */
  lemma FirstCommaAfter(p: string, k: nat, t: string)
    requires MonthToken(t).Some? && k + |t| < |p| && p[k..k + |t|] == t && p[k + |t|] == ','
    ensures IndexOfChar(p, ',', k) == k + |t|
  {
    MonthTokenChars(t);
    assert forall j :: k <= j < k + |t| ==> p[j] == t[j - k];
  }

  /** One space followed by a letter is the whole `\s*` run. */
  lemma SingleSpace(p: string, k: nat)
    requires k + 1 < |p| && p[k] == ' ' && IsAsciiLetter(p[k + 1])
    ensures SpaceRunEnd(p, k) == k + 1
  {
    assert p[k..k + 1] == [' '];
    SpaceRunEndIs(p, k, k + 1);
  }

  lemma SameWord(w: string)
    ensures SameIgnoringCase(w, w)
  {
  }

  /** A payload that starts `yearly,` and ends in a digit is neither an
      interval nor monthly. */
  lemma YearlyNotEarlier(p: string, d: string)
    requires |p| >= 8 && p[..7] == "yearly," && |d| >= 1 && AllDigits(d) && |d| <= |p| && p[|p| - |d|..] == d
    ensures ParseInterval(p).None? && ParseMonthly(p).None?
  {
    assert p[|p| - 1] == p[|p| - |d|..][|d| - 1];
    assert p[..8][0] == p[..7][0];
  }

  /** A month given by its number reads back as that number. */
  lemma YearlyNumberReadsBack(m: nat, n: nat)
    requires m < 100
    ensures ParseRule("yearly, month=" + NatToString(m) + ", day=" + NatToString(n))
            == Some(Yearly(m, DayNumber(Int(n))))
  {
    YearlyReadsBack(NatToString(m), n);
  }

  /** A month given by its name, in any case, reads back as its number from 1. */
  lemma YearlyNameReadsBack(i: nat, n: nat)
    requires i < 12
    ensures ParseRule("yearly, month=" + MonthNames[i] + ", day=" + NatToString(n))
            == Some(Yearly(i + 1, DayNumber(Int(n))))
  {
    MonthNameToken(i);
    YearlyReadsBack(MonthNames[i], n);
  }

  /** Each month name is a token that reads as its position plus one. */
  lemma MonthNameToken(i: nat)
    requires i < 12
    ensures MonthToken(MonthNames[i]) == Some(i + 1)
  {
    MonthNameShape(i);
    MonthNamesDistinct(i);
  }

  lemma MonthNameShape(i: nat)
    requires i < 12
    ensures |MonthNames[i]| == 3 && AllLetters(MonthNames[i]) && ToLower(MonthNames[i]) == MonthNames[i]
  {
  }

  lemma MonthNamesDistinct(i: nat)
    requires i < 12
    ensures MonthNames[i] !in MonthNames[..i]
  {
  }

  /** A day name is three letters long and starts with a letter. */
  lemma DayNameShape(w: string)
    ensures WeekdayNumber(w).Some? ==> |w| == 3 && IsAsciiLetter(w[0])
  {
    if |w| > 0 {
      assert Lower(w[0]) == ToLower(w)[0];
    }
  }

  /** The first piece of a split runs up to the first separator. */
  lemma FirstPiece(p: string, sep: char, i: nat)
    requires i < |p| && p[i] == sep && forall k :: 0 <= k < i ==> p[k] != sep
    ensures Split(p, sep)[0] == p[..i]
  {
    assert IndexOfChar(p, sep, 0) == i;
  }

  /** A payload whose first piece before a comma is not a day name is not a
      weekday list. */
  lemma NotWeekly(p: string, i: nat)
    requires i < |p| && p[i] == ',' && forall k :: 0 <= k < i ==> p[k] != ','
    requires i != 3
    ensures ParseWeekly(p).None?
  {
    FirstPiece(p, ',', i);
    DayNameShape(Split(p, ',')[0]);
  }

  /** A prefix that equals a word ignoring case holds no comma when the word
      has none. */
  lemma NoCommaBefore(p: string, w: string)
    requires |w| <= |p| && SameIgnoringCase(p[..|w|], w) && ',' !in w
    ensures forall k :: 0 <= k < |w| ==> p[k] != ','
  {
    forall k | 0 <= k < |w| ensures p[k] != ',' {
      assert Lower(p[..|w|][k]) == Lower(w[k]);
      assert w[k] != ',';
    }
  }

  /** An interval payload starts with a digit, so it is no other form. */
  lemma IntervalExcludes(p: string)
    requires ParseInterval(p).Some?
    ensures ParseMonthly(p).None? && ParseYearly(p).None? && ParseWeekly(p).None?
  {
    assert IsDigit(p[..|p| - 1][0]);
    assert !IsAsciiLetter(p[0]) && Lower(p[0]) == p[0];
    assert |p| >= 8 ==> p[..8][0] == p[0];
    assert |p| >= 7 ==> p[..7][0] == p[0];
    NoLetterNoWeekly(p);
  }

  /** A payload that does not start with a letter is not a weekday list. */
  lemma NoLetterNoWeekly(p: string)
    requires |p| >= 1 && !IsAsciiLetter(p[0]) && p[0] != ','
    ensures ParseWeekly(p).None?
  {
    var parts := Split(p, ',');
    var i := IndexOfChar(p, ',', 0);
    assert parts[0] == if i < 0 then p else p[..i];
    assert i != 0;
    DayNameShape(parts[0]);
  }

  /** A payload starting with `monthly,` is neither yearly nor a weekday list. */
  lemma MonthlyExcludes(p: string)
    requires |p| >= 8 && SameIgnoringCase(p[..8], "monthly,")
    ensures ParseYearly(p).None? && ParseWeekly(p).None?
  {
    assert Lower(p[..8][0]) == 'm' && p[..8][0] == p[..7][0];
    assert !SameIgnoringCase(p[..7], "yearly,");
    NoCommaBefore(p, "monthly");
    assert p[..8][7] == ',';
    NotWeekly(p, 7);
  }

  /** A payload starting with `yearly,` is not a weekday list. */
  lemma YearlyExcludes(p: string)
    requires |p| >= 7 && SameIgnoringCase(p[..7], "yearly,")
    ensures ParseWeekly(p).None?
  {
    NoCommaBefore(p, "yearly");
    assert p[..7][6] == ',';
    NotWeekly(p, 6);
  }

  lemma MonthlyPrefix(p: string)
    requires ParseMonthly(p).Some?
    ensures |p| >= 8 && SameIgnoringCase(p[..8], "monthly,")
  {
  }

  lemma YearlyPrefix(p: string)
    requires ParseYearly(p).Some?
    ensures |p| >= 7 && SameIgnoringCase(p[..7], "yearly,")
  {
  }

  /** The four forms exclude one another: at most one reading applies to a
      payload, so the order in which the code tries them does not matter. */
  lemma FormsExclusive(p: string)
    ensures ParseInterval(p).Some? ==> ParseMonthly(p).None? && ParseYearly(p).None? && ParseWeekly(p).None?
    ensures ParseMonthly(p).Some? ==> ParseYearly(p).None? && ParseWeekly(p).None?
    ensures ParseYearly(p).Some? ==> ParseWeekly(p).None?
  {
    if ParseInterval(p).Some? {
      IntervalExcludes(p);
    }
    if ParseMonthly(p).Some? {
      MonthlyPrefix(p);
      MonthlyExcludes(p);
    }
    if ParseYearly(p).Some? {
      YearlyPrefix(p);
      YearlyExcludes(p);
    }
  }
}
