/** The `YYYY-MM-DD` strings the plugin compares start dates by: `toLocalYMD`
    (a date printed with its month and day padded to two digits), the
    `^(\d{4})-(\d{2})-(\d{2})` prefix both `parseYMD` and the recurrence code
    look for, what `new Date("YYYY-MM-DD")` makes of that prefix, and
    `parseYMD` itself, which also accepts `today+Nd`. */
module DateResolver {
  import opened Wrappers
  import opened Text
  import opened Calendar
  import opened JsDates

  /** `String(n)` of a number: `NaN` or the decimal integer. */
  function NumText(n: Num): string {
    if n.NaN? then "NaN" else IntToString(n.v)
  }

  /** `` `${y}-${String(m).padStart(2, '0')}-${String(d).padStart(2, '0')}` ``,
      the one way the plugin prints a date. */
  function YmdText(y: Num, m: Num, d: Num): string {
    NumText(y) + "-" + PadStart2(NumText(m)) + "-" + PadStart2(NumText(d))
  }

  /** `toLocalYMD(date)`: the calendar day held by a valid `Date`, printed. */
  function ToLocalYMD(d: Date): string {
    YmdText(Int(d.year), Int(d.month), Int(d.day))
  }

  /** A year `toLocalYMD` prints with exactly four digits. */
  predicate FourDigitYear(d: Date) {
    1000 <= d.year <= 9999
  }

  // --------------------------------------------------- the ISO date prefix

  /** `s` starts with `^(\d{4})-(\d{2})-(\d{2})`. */
  predicate IsIsoPrefix(s: string) {
    |s| >= 10 && AllDigits(s[..4]) && s[4] == '-' && AllDigits(s[5..7]) && s[7] == '-'
    && AllDigits(s[8..10])
  }

  /** `new Date("YYYY-MM-DD")` built from the ISO prefix of `s`: a month
      outside 1..12 or a day outside 1..31 gives the Invalid Date; a day past
      the end of its month runs on into the next (`2023-02-30` is 2 March). */
  function IsoDate(s: string): (r: Option<Date>)
    requires IsIsoPrefix(s)
    ensures r.Some? ==> ValidDate(r.value)
    ensures r.Some? <==> 1 <= DigitsValue(s[5..7]) <= 12 && 1 <= DigitsValue(s[8..10]) <= 31
  {
    var y, m, d := DigitsValue(s[..4]), DigitsValue(s[5..7]), DigitsValue(s[8..10]);
    if 1 <= m <= 12 && 1 <= d <= 31 then Some(MakeDate(y, m - 1, d)) else None
  }

  /** The `N` of `^today\+(\d+)d$` (letters in either case), if `s` has that form. */
  function RelativeDays(s: string): (r: Option<nat>)
    ensures r.Some? <==> |s| >= 8 && SameIgnoringCase(s[..6], "today+") && Lower(s[|s| - 1]) == 'd'
                         && AllDigits(s[6..|s| - 1])
    ensures r.Some? ==> |s| >= 8 && AllDigits(s[6..|s| - 1])
                        && r.value == DigitsValue(s[6..|s| - 1])
  {
    if |s| >= 8 && SameIgnoringCase(s[..6], "today+") && Lower(s[|s| - 1]) == 'd'
       && AllDigits(s[6..|s| - 1])
    then Some(DigitsValue(s[6..|s| - 1]))
    else None
  }

  /** The day `n` days after `today`, printed, computed as the code does it:
      `setDate(getDate() + n)` on today, which lands `n` days later. */
  function DaysAfterText(today: Date, n: nat): (r: string)
    requires ValidDate(today)
    ensures r == ToLocalYMD(AddDays(today, n))
  {
    MakeDateShift(today, n);
    ToLocalYMD(MakeDate(today.year, today.month - 1, today.day + n))
  }

  /** `parseYMD(str)` for a start decoration `str`, `today` being the day
      `new Date()` reads: the ISO prefix verbatim, or the day `N` days after
      today printed, or nothing. The relative day is computed the way the code
      computes it, by `setDate(getDate() + N)` on today. */
  function ParseYMD(s: string, today: Date): (r: Option<string>)
    requires ValidDate(today)
    ensures IsIsoPrefix(s) ==> r == Some(s[..10])
    ensures !IsIsoPrefix(s) && RelativeDays(s).Some? ==> r == Some(ToLocalYMD(AddDays(today, RelativeDays(s).value)))
    ensures !IsIsoPrefix(s) && RelativeDays(s).None? ==> r.None?
    ensures r.Some? ==> |r.value| >= 1
  {
    if s == [] then None
    else if IsIsoPrefix(s) then Some(s[..10])
    else match RelativeDays(s)
      case Some(n) => Some(DaysAfterText(today, n))
      case None => None
  }

  // ------------------------------------------------------------------ lemmas

  /** A number below 100 printed and padded is two digits with its value. */
  lemma PaddedTwoDigits(n: int)
    requires 0 <= n < 100
    ensures var s := PadStart2(NumText(Int(n)));
      |s| == 2 && AllDigits(s) && DigitsValue(s) == n
  {
    var t := NatToString(n);
    if n < 10 {
      var s := "0" + t;
      assert s[..1] == "0";
    }
  }

  /** `s` is `YYYY-MM-DD` with the digits of year `y`, month `m` and day `d`. */
  predicate YmdFields(s: string, y: int, m: int, d: int) {
    && |s| == 10 && s[4] == '-' && s[7] == '-'
    && AllDigits(s[..4]) && AllDigits(s[5..7]) && AllDigits(s[8..10])
    && DigitsValue(s[..4]) == y && DigitsValue(s[5..7]) == m && DigitsValue(s[8..10]) == d
    && s == s[..4] + ("-" + (s[5..7] + ("-" + s[8..10])))
  }

  /** Five pieces of lengths 4, 1, 2, 1, 2 joined, and where each one sits. */
  lemma YmdLayout(y: string, m: string, dd: string)
    requires |y| == 4 && |m| == 2 && |dd| == 2
    ensures var s := y + "-" + m + "-" + dd;
      && |s| == 10 && s[..4] == y && s[4] == '-' && s[5..7] == m && s[7] == '-'
      && s[8..10] == dd && s == y + ("-" + (m + ("-" + dd)))
  {
    var s := y + "-" + m + "-" + dd;
    var p3 := y + "-" + m + "-";
    assert s[..8] == p3 && s[8..] == dd;
    var p2 := y + "-" + m;
    assert p3[..7] == p2;
    assert p2[..4] == y && p2[5..] == m;
  }

  /** Ten characters laid out as `YYYY-MM-DD` whose three fields read as `y`, `m`, `d`. */
  lemma FieldsRead(s: string, ys: string, ms: string, ds: string, y: int, m: int, d: int)
    requires |s| == 10 && s[..4] == ys && s[4] == '-' && s[5..7] == ms && s[7] == '-' && s[8..10] == ds
    requires s == ys + ("-" + (ms + ("-" + ds)))
    requires AllDigits(ys) && DigitsValue(ys) == y
    requires AllDigits(ms) && DigitsValue(ms) == m
    requires AllDigits(ds) && DigitsValue(ds) == d
    ensures YmdFields(s, y, m, d)
  {
  }

  /** A date with a four-digit year prints as ten characters: the year, `-`,
      the two-digit month, `-`, the two-digit day, each reading back as its
      number. */
  lemma YmdShape(d: Date)
    requires FourDigitYear(d) && 1 <= d.month <= 12 && 1 <= d.day <= 31
    ensures YmdFields(ToLocalYMD(d), d.year, d.month, d.day)
  {
    var y, m, dd := NumText(Int(d.year)), PadStart2(NumText(Int(d.month))), PadStart2(NumText(Int(d.day)));
    YearDigits(d.year);
    PaddedTwoDigits(d.month);
    PaddedTwoDigits(d.day);
    PrintedLayout(d);
    FieldsRead(ToLocalYMD(d), y, m, dd, d.year, d.month, d.day);
  }

  /** Where the printed year, month and day sit in `toLocalYMD(d)`. */
  lemma PrintedLayout(d: Date)
    requires FourDigitYear(d) && 1 <= d.month <= 12 && 1 <= d.day <= 31
    ensures var s, y, m, dd := ToLocalYMD(d), NumText(Int(d.year)), PadStart2(NumText(Int(d.month))), PadStart2(NumText(Int(d.day)));
      && |s| == 10 && s[..4] == y && s[4] == '-' && s[5..7] == m && s[7] == '-'
      && s[8..10] == dd && s == y + ("-" + (m + ("-" + dd)))
  {
    var y, m, dd := NumText(Int(d.year)), PadStart2(NumText(Int(d.month))), PadStart2(NumText(Int(d.day)));
    YearDigits(d.year);
    PaddedTwoDigits(d.month);
    PaddedTwoDigits(d.day);
    YmdLayout(y, m, dd);
  }

  /** A four-digit year prints as its four digits. */
  lemma YearDigits(y: int)
    requires 1000 <= y <= 9999
    ensures var s := NumText(Int(y)); |s| == 4 && AllDigits(s) && DigitsValue(s) == y
  {
    assert NumText(Int(y)) == NatToString(y);
  }

  /** Printed dates with four-digit years compare as strings the way the dates
      compare in time, so `startYMD > todayYMD` means "starts after today". */
  lemma YmdOrder(a: Date, b: Date)
    requires ValidDate(a) && FourDigitYear(a) && ValidDate(b) && FourDigitYear(b)
    ensures StrLess(ToLocalYMD(a), ToLocalYMD(b)) <==> Before(a, b)
    ensures ToLocalYMD(a) == ToLocalYMD(b) <==> a == b
  {
    YmdShape(a);
    YmdShape(b);
    YmdFieldsOrder(ToLocalYMD(a), ToLocalYMD(b), a.year, a.month, a.day, b.year, b.month, b.day);
  }

  /** Two `YYYY-MM-DD` strings compare field by field, year first. */
  lemma {:induction false} YmdFieldsOrder(s: string, t: string, y1: int, m1: int, d1: int, y2: int, m2: int, d2: int)
    requires YmdFields(s, y1, m1, d1) && YmdFields(t, y2, m2, d2)
    ensures StrLess(s, t) <==> y1 < y2 || (y1 == y2 && (m1 < m2 || (m1 == m2 && d1 < d2)))
    ensures s == t <==> y1 == y2 && m1 == m2 && d1 == d2
  {
    var ys, ms, ds := s[..4], s[5..7], s[8..10];
    var yt, mt, dt := t[..4], t[5..7], t[8..10];
    StrLessDigits(ys, yt);
    StrLessDigits(ms, mt);
    StrLessDigits(ds, dt);
    StrLessConcat(ys, "-" + (ms + ("-" + ds)), yt, "-" + (mt + ("-" + dt)));
    StrLessConcat("-", ms + ("-" + ds), "-", mt + ("-" + dt));
    StrLessConcat(ms, "-" + ds, mt, "-" + dt);
    StrLessConcat("-", ds, "-", dt);
    if ys == yt { DigitsValueInjective(ys, yt); }
    if ms == mt { DigitsValueInjective(ms, mt); }
    if ds == dt { DigitsValueInjective(ds, dt); }
    if y1 == y2 { DigitsValueInjective(ys, yt); }
    if m1 == m2 { DigitsValueInjective(ms, mt); }
    if d1 == d2 { DigitsValueInjective(ds, dt); }
  }

  /** A printed date is an ISO prefix, and `new Date` of it is that date again. */
  lemma IsoDateOfYmd(d: Date)
    requires ValidDate(d) && FourDigitYear(d)
    ensures IsIsoPrefix(ToLocalYMD(d)) && IsoDate(ToLocalYMD(d)) == Some(d)
  {
    YmdShape(d);
    IsoDateOfFields(ToLocalYMD(d), d.year, d.month, d.day);
    MakeDateOfFields(d);
  }

  /** An ISO prefix whose month and day are in range is read as MakeDate of its fields. */
  lemma IsoDateOfFields(s: string, y: int, m: int, day: int)
    requires IsIsoPrefix(s) && 1 <= m <= 12 && 1 <= day <= 31
    requires DigitsValue(s[..4]) == y && DigitsValue(s[5..7]) == m && DigitsValue(s[8..10]) == day
    ensures IsoDate(s) == Some(MakeDate(y, m - 1, day))
  {
  }

  /** `today+Nd` resolves to the day `N` days after today: a relative text is
      never taken for an ISO date, which starts with a digit. */
  lemma RelativeStart(s: string, today: Date)
    requires ValidDate(today) && RelativeDays(s).Some?
    ensures !IsIsoPrefix(s)
    ensures ParseYMD(s, today) == Some(ToLocalYMD(AddDays(today, RelativeDays(s).value)))
  {
    assert Lower(s[..6][0]) == 't' && s[..6][0] == s[0] && s[..4][0] == s[0];
  }

  /** The relative form is recognised whatever the case of its letters. */
  lemma RelativeDaysExample()
    ensures RelativeDays("Today+3D") == Some(3)
  {
    var s := "Today+3D";
    assert s[..6] == "Today+";
    assert SameIgnoringCase("Today+", "today+") by {
      assert Lower('T') == 't';
    }
    assert s[6..7] == "3" && AllDigits("3") && DigitsValue("3") == 3;
    assert Lower(s[7]) == 'd';
  }
}
