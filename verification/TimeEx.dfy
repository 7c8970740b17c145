/** timeex.c: `SubtractTime` on broken-down UTC time. */
module TimeEx {
  import opened Basics

  /** `struct tm` without the derived fields: months from 0, years from 1900. */
  datatype Tm = Tm(sec: int, min: int, hour: int, mday: int, mon: int, year: int)

  predicate IsLeapYear(year: int) {
    (Remainder(year, 4) == 0 && Remainder(year, 100) != 0) || Remainder(year, 400) == 0
  }

  // ---- The Gregorian calendar as a reference ----

  predicate Leap(y: int) {
    (y % 4 == 0 && y % 100 != 0) || y % 400 == 0
  }

  /** The C test is the Gregorian rule, for negative years as well. */
  lemma IsLeapYearIsLeap(y: int)
    ensures IsLeapYear(y) <==> Leap(y)
  {
    By4(y);
    By100(y);
    By400(y);
  }

  lemma By4(y: int)
    ensures Remainder(y, 4) == 0 <==> y % 4 == 0
  {}

  lemma By100(y: int)
    ensures Remainder(y, 100) == 0 <==> y % 100 == 0
  {}

  lemma By400(y: int)
    ensures Remainder(y, 400) == 0 <==> y % 400 == 0
  {}

  function MonthLength(mon: int, leap: bool): int
    requires 0 <= mon < 12
  {
    if mon == 1 then (if leap then 29 else 28)
    else if mon == 3 || mon == 5 || mon == 8 || mon == 10 then 30
    else 31
  }

  function DaysInMonth(mon: int, y: int): int
    requires 0 <= mon < 12
  {
    MonthLength(mon, Leap(y))
  }

  function DaysBeforeYear(y: int): int {
    365 * y + (y - 1) / 4 - (y - 1) / 100 + (y - 1) / 400
  }

  function DaysBeforeMonth(mon: int, y: int): int
    requires 0 <= mon < 12
  {
    if mon == 0 then 0 else DaysBeforeMonth(mon - 1, y) + DaysInMonth(mon - 1, y)
  }

  /** The day number of a date; the day of the month may be out of range. */
  function DayNumber(mday: int, mon: int, year: int): int
    requires 0 <= mon < 12
  {
    DaysBeforeYear(year + 1900) + DaysBeforeMonth(mon, year + 1900) + mday
  }

  /** Seconds on a fixed UTC scale, as mktime counts them; clock fields may be out of range. */
  function Seconds(t: Tm): int
    requires 0 <= t.mon < 12
  {
    86400 * DayNumber(t.mday, t.mon, t.year) + 3600 * t.hour + 60 * t.min + t.sec
  }

  lemma YearLength(y: int)
    ensures DaysBeforeYear(y + 1) == DaysBeforeYear(y) + (if Leap(y) then 366 else 365)
  {
    FloorStep(y, 4);
    FloorStep(y, 100);
    FloorStep(y, 400);
    CenturyRule(y);
  }

  lemma CenturyRule(y: int)
    ensures y % 400 == 0 ==> y % 100 == 0
    ensures y % 100 == 0 ==> y % 4 == 0
  {}

  lemma FloorStep(y: int, d: int)
    requires d > 1
    ensures y / d == (y - 1) / d + (if y % d == 0 then 1 else 0)
  {
    var q, r := y / d, y % d;
    assert y == d * q + r;
    if r == 0 {
      assert y - 1 == d * (q - 1) + (d - 1);
      FloorUnique(y - 1, d, q - 1, d - 1);
    } else {
      assert y - 1 == d * q + (r - 1);
      FloorUnique(y - 1, d, q, r - 1);
    }
  }

  lemma FloorUnique(n: int, d: int, q: int, r: int)
    requires d > 0 && n == d * q + r && 0 <= r < d
    ensures n / d == q
  {
    var p := n / d;
    assert n == d * p + n % d;
    if p < q {
      Scaled(q, p + 1, d);
    } else if q < p {
      Scaled(p, q + 1, d);
    }
  }

  lemma Scaled(a: int, b: int, d: int)
    requires a >= b && d > 0
    ensures d * a >= d * b
  {
    assert d * a == d * b + d * (a - b);
  }

  lemma YearIsTwelveMonths(y: int)
    ensures DaysBeforeMonth(11, y) + DaysInMonth(11, y) == if Leap(y) then 366 else 365
  {
    assert DaysBeforeMonth(1, y) == 31;
    assert DaysBeforeMonth(2, y) == 31 + DaysInMonth(1, y);
    assert DaysBeforeMonth(4, y) == DaysBeforeMonth(2, y) + 31 + 30;
    assert DaysBeforeMonth(6, y) == DaysBeforeMonth(4, y) + 31 + 30;
    assert DaysBeforeMonth(8, y) == DaysBeforeMonth(6, y) + 31 + 31;
    assert DaysBeforeMonth(10, y) == DaysBeforeMonth(8, y) + 30 + 31;
  }

  function PreviousMonth(mon: int): int { if mon == 0 then 11 else mon - 1 }

  function PreviousYear(mon: int, year: int): int { if mon == 0 then year - 1 else year }

  /** Going back one month and adding the true length of that month names the same day. */
  lemma SameDayOneMonthBack(mday: int, mon: int, year: int)
    requires 0 <= mon < 12
    ensures var (m, y) := (PreviousMonth(mon), PreviousYear(mon, year));
            DayNumber(mday + DaysInMonth(m, y + 1900), m, y) == DayNumber(mday, mon, year)
  {
    if mon == 0 {
      YearLength(year - 1 + 1900);
      YearIsTwelveMonths(year - 1 + 1900);
    }
  }

  // ---- The borrows ----

  /** The second and the minute borrow: `(high, low)` in units of sixty. */
  function Borrow60(high: int, low: int): (int, int) {
    if low < 0 then (high + Quotient(low, 60) - 1, 60 + Remainder(low, 60)) else (high, low)
  }

  /** The day borrow as written, without the extra -1 of the other two. */
  function BorrowDay(mday: int, hour: int): (int, int) {
    if hour < 0 then (mday + Quotient(hour, 24), 24 + Remainder(hour, 24)) else (mday, hour)
  }

  /** Borrowing sixties conserves the total; the low part is proper unless the debt is a multiple of sixty. */
  lemma Borrow60Conserves(high: int, low: int)
    ensures var (h, l) := Borrow60(high, low); 60 * h + l == 60 * high + low && (low < 0 ==> 1 <= l <= 60)
    ensures low < 60 ==> (0 <= Borrow60(high, low).1 < 60 <==> low >= 0 || low % 60 != 0)
  {}

  /** The day borrow always ends up exactly one day too late. */
  lemma BorrowDayGainsADay(mday: int, hour: int)
    ensures var (d, h) := BorrowDay(mday, hour);
            24 * d + h == 24 * mday + hour + (if hour < 0 then 24 else 0) && (hour < 0 ==> 1 <= h <= 24)
  {}

  // ---- The month walk ----

  /** The month lengths the code uses; its years count from 1900. */
  function CodeLength(mon: int, leap: bool): int {
    if Remainder(mon, 2) == 0 then 30
    else if mon != 1 then 31
    else if leap then 29 else 28
  }

  function CodeDays(mon: int, year: int): int {
    CodeLength(mon, IsLeapYear(year))
  }

  datatype Date = Date(mday: int, mon: int, year: int)

  function Walk(d: Date): Date
    requires 0 <= d.mon < 12
    decreases 1 - d.mday
  {
    if d.mday >= 1 then d
    else
      var m, y := PreviousMonth(d.mon), PreviousYear(d.mon, d.year);
      Walk(Date(d.mday + CodeDays(m, y) + 1, m, y))
  }

  /** The code's month plus one is never shorter than the true month. */
  lemma CodeMonthIsNotShort(mon: int, year: int)
    requires 0 <= mon < 12
    ensures CodeDays(mon, year) + 1 >= DaysInMonth(mon, year + 1900)
  {}

  /** The walk ends on a day of at least 1 in a real month, goes only backwards, and never names an earlier day. */
  lemma {:induction false} WalkIsNotEarly(d: Date)
    requires 0 <= d.mon < 12
    ensures var w := Walk(d);
            && w.mday >= 1 && 0 <= w.mon < 12
            && DayNumber(w.mday, w.mon, w.year) >= DayNumber(d.mday, d.mon, d.year)
            && (d.mday < 1 ==> 12 * w.year + w.mon < 12 * d.year + d.mon)
    decreases 1 - d.mday
  {
    if d.mday < 1 {
      var m, y := PreviousMonth(d.mon), PreviousYear(d.mon, d.year);
      SameDayOneMonthBack(d.mday, d.mon, d.year);
      CodeMonthIsNotShort(m, y);
      WalkIsNotEarly(Date(d.mday + CodeDays(m, y) + 1, m, y));
    }
  }

  /**
    By how many days the code's month plus one is longer than the true month: none in January, March, May and July, two
    in April and June, one from August on; in February one, unless the two disagree on the leap year, since the code
    tests the year counted from 1900.
   */
  function Excess(mon: int, codeLeap: bool, leap: bool): nat
    requires 0 <= mon < 12
  {
    if mon == 1 then (if codeLeap && !leap then 2 else if !codeLeap && leap then 0 else 1)
    else if mon == 3 || mon == 5 then 2
    else if mon >= 7 then 1
    else 0
  }

  lemma ExcessIs(mon: int, codeLeap: bool, leap: bool)
    requires 0 <= mon < 12
    ensures CodeLength(mon, codeLeap) + 1 == MonthLength(mon, leap) + Excess(mon, codeLeap, leap)
  {}

  function Overshoot(mon: int, year: int): nat
    requires 0 <= mon < 12
  {
    Excess(mon, Leap(year), Leap(year + 1900))
  }

  lemma CodeMonthIs(mon: int, year: int)
    requires 0 <= mon < 12
    ensures CodeDays(mon, year) + 1 == DaysInMonth(mon, year + 1900) + Overshoot(mon, year)
  {
    IsLeapYearIsLeap(year);
    ExcessIs(mon, Leap(year), Leap(year + 1900));
  }

  /** The days gained on the months that a walk back from `d` passes. */
  function Gained(d: Date): nat
    requires 0 <= d.mon < 12
    decreases 1 - d.mday
  {
    if d.mday >= 1 then 0
    else
      var m, y := PreviousMonth(d.mon), PreviousYear(d.mon, d.year);
      Overshoot(m, y) + Gained(Date(d.mday + CodeDays(m, y) + 1, m, y))
  }

  lemma GainStep(d: Date, m: int, y: int)
    requires 0 <= d.mon < 12 && m == PreviousMonth(d.mon) && y == PreviousYear(d.mon, d.year)
    ensures 0 <= m < 12
    ensures DayNumber(d.mday + CodeDays(m, y) + 1, m, y) == DayNumber(d.mday, d.mon, d.year) + Overshoot(m, y)
  {
    SameDayOneMonthBack(d.mday, d.mon, d.year);
    CodeMonthIs(m, y);
  }

  /** The walk names a day that is late by exactly those days. */
  lemma {:induction false} WalkGains(d: Date)
    requires 0 <= d.mon < 12
    ensures var w := Walk(d);
            0 <= w.mon < 12 && DayNumber(w.mday, w.mon, w.year) == DayNumber(d.mday, d.mon, d.year) + Gained(d)
    decreases 1 - d.mday
  {
    if d.mday < 1 {
      var m, y := PreviousMonth(d.mon), PreviousYear(d.mon, d.year);
      var next := Date(d.mday + CodeDays(m, y) + 1, m, y);
      GainStep(d, m, y);
      WalkGains(next);
    }
  }

  // ---- SubtractTime ----

  predicate InRange(t: Tm) {
    0 <= t.sec < 60 && 0 <= t.min < 60 && 0 <= t.hour < 24 && 1 <= t.mday && 0 <= t.mon < 12
  }

  function TimeOfDay(t: Tm): int { 3600 * t.hour + 60 * t.min + t.sec }

  /** The fields handed to mktime. */
  function Subtracted(t: Tm, seconds: int): Tm
    requires 0 <= t.mon < 12
  {
    var (m, s) := Borrow60(t.min, t.sec - seconds);
    var (h, m') := Borrow60(t.hour, m);
    var (d, h') := BorrowDay(t.mday, h);
    var date := if h < 0 then Walk(Date(d, t.mon, t.year)) else Date(d, t.mon, t.year);
    Tm(s, m', h', date.mday, date.mon, date.year)
  }

  /** The cases that need no hour borrow: within the minute, within the hour, or more than a minute above midnight. */
  predicate NoHourBorrow(t: Tm, seconds: int) {
    seconds <= t.sec || seconds < 60 * t.min + t.sec || seconds < TimeOfDay(t) - 60
  }

  lemma HourBorrowIff(t: Tm, seconds: int)
    requires InRange(t) && seconds > 0
    ensures Borrow60(t.hour, Borrow60(t.min, t.sec - seconds).0).0 >= 0 <==> NoHourBorrow(t, seconds)
  {}

  /**
    The result is the time `seconds` earlier exactly when no hour borrow is needed. Otherwise, which includes some
    subtractions that stay within the same day, the result is at least one whole day late.
   */
  lemma ExactIff(t: Tm, seconds: int)
    requires InRange(t) && seconds > 0
    ensures var r := Subtracted(t, seconds);
            && 0 <= r.mon < 12 && r.mday >= 1
            && (Seconds(r) == Seconds(t) - seconds <==> NoHourBorrow(t, seconds))
            && (!NoHourBorrow(t, seconds) ==> Seconds(r) >= Seconds(t) - seconds + 86400)
  {
    var (m, s) := Borrow60(t.min, t.sec - seconds);
    var (h, m') := Borrow60(t.hour, m);
    var (d, h') := BorrowDay(t.mday, h);
    Borrow60Conserves(t.min, t.sec - seconds);
    Borrow60Conserves(t.hour, m);
    BorrowDayGainsADay(t.mday, h);
    WalkIsNotEarly(Date(d, t.mon, t.year));
    HourBorrowIff(t, seconds);
  }

  /** The day of the month after the day borrow. */
  function BorrowedDay(t: Tm, seconds: int): int {
    BorrowDay(t.mday, Borrow60(t.hour, Borrow60(t.min, t.sec - seconds).0).0).0
  }

  /** How late the result is in the other case: a day, and what the walk back over the months gains. */
  lemma LatenessIs(t: Tm, seconds: int)
    requires InRange(t) && seconds > 0 && !NoHourBorrow(t, seconds)
    ensures var r := Subtracted(t, seconds);
            && 0 <= r.mon < 12
            && Seconds(r) == Seconds(t) - seconds
                             + 86400 * (1 + Gained(Date(BorrowedDay(t, seconds), t.mon, t.year)))
  {
    var (m, s) := Borrow60(t.min, t.sec - seconds);
    var (h, m') := Borrow60(t.hour, m);
    var (d, h') := BorrowDay(t.mday, h);
    HourBorrowIff(t, seconds);
    Borrow60Conserves(t.min, t.sec - seconds);
    Borrow60Conserves(t.hour, m);
    BorrowDayGainsADay(t.mday, h);
    WalkGains(Date(d, t.mon, t.year));
  }

  /** One o'clock minus one hour: the same calendar day, but the fields handed to mktime name the next midnight. */
  lemma OneOClockMinusAnHour(mday: int, mon: int, year: int)
    requires mday >= 1 && 0 <= mon < 12
    ensures var t := Tm(0, 0, 1, mday, mon, year);
            && Subtracted(t, 3600) == Tm(60, 59, 23, mday, mon, year)
            && Seconds(Subtracted(t, 3600)) == Seconds(t) - 3600 + 86400
  {
    assert Walk(Date(mday, mon, year)) == Date(mday, mon, year);
  }

  /** `SubtractTime`, up to its final call of mktime; None is INDEFINITE_TIME. */
  method SubtractTime(base: Tm, seconds: int) returns (r: Option<Tm>)
    requires InRange(base)
    ensures r == if seconds > 0 then Some(Subtracted(base, seconds)) else None
  {
    if seconds <= 0 {
      return None;
    }
    var sec, min, hour, mday, mon, year := base.sec, base.min, base.hour, base.mday, base.mon, base.year;
    sec := sec - seconds;
    if sec < 0 {
      min := min + Quotient(sec, 60) - 1;
      sec := 60 + Remainder(sec, 60);
      if min < 0 {
        hour := hour + Quotient(min, 60) - 1;
        min := 60 + Remainder(min, 60);
        if hour < 0 {
          mday := mday + Quotient(hour, 24);
          hour := 24 + Remainder(hour, 24);
          ghost var start := Date(mday, mon, year);
          while mday < 1
            invariant 0 <= mon < 12
            invariant Walk(Date(mday, mon, year)) == Walk(start)
            decreases 1 - mday
          {
            if mon == 0 {
              mon := 11;
              year := year - 1;
            } else {
              mon := mon - 1;
            }
            var daysInMonth;
            if Remainder(mon, 2) == 0 {
              daysInMonth := 30;
            } else if mon != 1 {
              daysInMonth := 31;
            } else if IsLeapYear(year) {
              daysInMonth := 29;
            } else {
              daysInMonth := 28;
            }
            mday := mday + daysInMonth + 1;
          }
        }
      }
    }
    r := Some(Tm(sec, min, hour, mday, mon, year));
  }
}
