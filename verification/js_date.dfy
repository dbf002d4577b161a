/** JavaScript's `Date` as the recurrence code uses it: an object holding one
    local calendar day (time of day plays no part in what the code reads back)
    or the Invalid Date, read through `getFullYear`, `getMonth`, `getDate` and
    `getDay`, and changed in place by `setDate`, `setMonth` and `setFullYear`. */
module JsDates {
  import opened Wrappers
  import opened Calendar

  /** A JavaScript number as the scheduling code meets it: an integer or NaN. */
  datatype Num = Int(v: int) | NaN {
    /** `this + k`; NaN stays NaN. */
    function Plus(k: int): Num {
      if Int? then Int(v + k) else NaN
    }
  }

  /** `Math.min(a, b)`: NaN when either argument is. */
  function Min(a: Num, b: Num): Num {
    if a.Int? && b.Int? then Int(if a.v <= b.v then a.v else b.v) else NaN
  }

  /** The year `new Date(y, m, d)` uses: a year 0..99 is read as 1900..1999. */
  function ConstructorYear(y: int): int {
    if 0 <= y <= 99 then 1900 + y else y
  }

  /** The date `setFullYear` starts from on an Invalid Date (time value +0). */
  const Epoch := Date(1970, 1, 1)

  class JsDate {
    /** The local calendar day held, or None for the Invalid Date. */
    var time: Option<Date>

    ghost predicate Valid()
      reads this
    {
      time.Some? ==> ValidDate(time.value)
    }

    /** `new Date()` (today), `new Date("YYYY-MM-DD")` or `new Date(other)`:
        a date already known, or the Invalid Date. */
    constructor Of(t: Option<Date>)
      requires t.Some? ==> ValidDate(t.value)
      ensures Valid() && time == t
    {
      time := t;
    }

    /** `new Date(y, m, d)`, the month counted from 0. */
    constructor FromFields(y: Num, m: Num, d: Num)
      ensures Valid()
      ensures time == if y.Int? && m.Int? && d.Int?
                      then Some(MakeDate(ConstructorYear(y.v), m.v, d.v)) else None
    {
      if y.Int? && m.Int? && d.Int? {
        time := Some(MakeDate(ConstructorYear(y.v), m.v, d.v));
      } else {
        time := None;
      }
    }

    function GetFullYear(): Num
      reads this
    {
      if time.Some? then Int(time.value.year) else NaN
    }

    /** The month counted from 0. */
    function GetMonth(): Num
      reads this
    {
      if time.Some? then Int(time.value.month - 1) else NaN
    }

    function GetDate(): Num
      reads this
    {
      if time.Some? then Int(time.value.day) else NaN
    }

    /** The day of the week, 0 for Sunday. */
    function GetDay(): Num
      requires Valid()
      reads this
    {
      if time.Some? then Int(Weekday(time.value)) else NaN
    }

    method SetDate(d: Num)
      requires Valid()
      modifies this
      ensures Valid()
      ensures time == if old(time).Some? && d.Int?
                      then Some(MakeDate(old(time).value.year, old(time).value.month - 1, d.v))
                      else None
    {
      if time.Some? && d.Int? {
        time := Some(MakeDate(time.value.year, time.value.month - 1, d.v));
      } else {
        time := None;
      }
    }

    method SetMonth(m: Num)
      requires Valid()
      modifies this
      ensures Valid()
      ensures time == if old(time).Some? && m.Int?
                      then Some(MakeDate(old(time).value.year, m.v, old(time).value.day))
                      else None
    {
      if time.Some? && m.Int? {
        time := Some(MakeDate(time.value.year, m.v, time.value.day));
      } else {
        time := None;
      }
    }

    method SetFullYear(y: Num)
      requires Valid()
      modifies this
      ensures Valid()
      ensures time == if y.NaN? then None
                      else var base := if old(time).Some? then old(time).value else Epoch;
                           Some(MakeDate(y.v, base.month - 1, base.day))
    {
      if y.NaN? {
        time := None;
      } else {
        var base := if time.Some? then time.value else Epoch;
        time := Some(MakeDate(y.v, base.month - 1, base.day));
      }
    }
  }
}
