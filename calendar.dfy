/** The proleptic Gregorian calendar that Python's datetime uses, on
    (year, month, day) triples: month lengths, day ordinals, ISO weekdays,
    stepping by one day and by one month (the `monthdelta(1)` of the
    scheduler). */
module Calendar {

  datatype Date = Date(year: int, month: int, day: int)

  predicate IsLeap(y: int)
  {
    y % 4 == 0 && (y % 100 != 0 || y % 400 == 0)
  }

  function DaysInMonth(y: int, m: int): (n: int)
    requires 1 <= m <= 12
    ensures 28 <= n <= 31
  {
    if m == 2 then (if IsLeap(y) then 29 else 28)
    else if m == 4 || m == 6 || m == 9 || m == 11 then 30
    else 31
  }

  predicate Valid(d: Date)
  {
    1 <= d.month <= 12 && 1 <= d.day <= DaysInMonth(d.year, d.month)
  }

  /** Days in the months of year `y` before month `m`. */
  function DaysBeforeMonth(y: int, m: int): int
    requires 1 <= m <= 13
  {
    if m == 1 then 0 else DaysBeforeMonth(y, m - 1) + DaysInMonth(y, m - 1)
  }

  /** Days in the years before year `y`, counted from 0001-01-01. */
  function DaysBeforeYear(y: int): int
  {
    365 * (y - 1) + (y - 1) / 4 - (y - 1) / 100 + (y - 1) / 400
  }

  /** date.toordinal() - 1: 0001-01-01 has number 0. */
  function DayNumber(d: Date): int
    requires Valid(d)
  {
    DaysBeforeYear(d.year) + DaysBeforeMonth(d.year, d.month) + d.day - 1
  }

  /** date.isoweekday(): Monday is 1 and Sunday is 7 (0001-01-01 was a Monday). */
  function IsoWeekday(d: Date): (w: int)
    requires Valid(d)
    ensures 1 <= w <= 7
  {
    DayNumber(d) % 7 + 1
  }

  /** `d + timedelta(days=1)` */
  function Next(d: Date): (r: Date)
    requires Valid(d)
    ensures Valid(r)
  {
    if d.day < DaysInMonth(d.year, d.month) then Date(d.year, d.month, d.day + 1)
    else if d.month < 12 then Date(d.year, d.month + 1, 1)
    else Date(d.year + 1, 1, 1)
  }

  /** `d - timedelta(days=1)` */
  function Prev(d: Date): (r: Date)
    requires Valid(d)
    ensures Valid(r)
  {
    if d.day > 1 then Date(d.year, d.month, d.day - 1)
    else if d.month > 1 then Date(d.year, d.month - 1, DaysInMonth(d.year, d.month - 1))
    else Date(d.year - 1, 12, 31)
  }

  /** `_get_eom(d)`: the last day of the month of `d`. */
  function EndOfMonth(d: Date): (r: Date)
    requires Valid(d)
    ensures Valid(r) && r.year == d.year && r.month == d.month && d.day <= r.day
  {
    Date(d.year, d.month, DaysInMonth(d.year, d.month))
  }

  lemma YearLength(y: int)
    ensures DaysBeforeMonth(y, 13) == if IsLeap(y) then 366 else 365
  {
    var feb := DaysInMonth(y, 2);
    assert DaysBeforeMonth(y, 2) == 31;
    assert DaysBeforeMonth(y, 3) == 31 + feb;
    assert DaysBeforeMonth(y, 4) == 62 + feb;
    assert DaysBeforeMonth(y, 5) == 92 + feb;
    assert DaysBeforeMonth(y, 6) == 123 + feb;
    assert DaysBeforeMonth(y, 7) == 153 + feb;
    assert DaysBeforeMonth(y, 8) == 184 + feb;
    assert DaysBeforeMonth(y, 9) == 215 + feb;
    assert DaysBeforeMonth(y, 10) == 245 + feb;
    assert DaysBeforeMonth(y, 11) == 276 + feb;
    assert DaysBeforeMonth(y, 12) == 306 + feb;
  }

  lemma YearStep(y: int)
    ensures DaysBeforeYear(y + 1) == DaysBeforeYear(y) + DaysBeforeMonth(y, 13)
  {
    YearLength(y);
    LeapCount(y);
  }

  /** One more leap day is counted exactly after a leap year. */
  lemma LeapCount(y: int)
    ensures DaysBeforeYear(y + 1) == DaysBeforeYear(y) + (if IsLeap(y) then 366 else 365)
  {
    var a := y - 1;
    assert y / 4 == a / 4 + (if y % 4 == 0 then 1 else 0);
    assert y / 100 == a / 100 + (if y % 100 == 0 then 1 else 0);
    assert y / 400 == a / 400 + (if y % 400 == 0 then 1 else 0);
  }

  /** The day after has the next day number. */
  lemma NextNumber(d: Date)
    requires Valid(d)
    ensures DayNumber(Next(d)) == DayNumber(d) + 1
  {
    if d.day == DaysInMonth(d.year, d.month) && d.month == 12 {
      YearStep(d.year);
    }
  }

  /** The day before has the previous day number. */
  lemma PrevNumber(d: Date)
    requires Valid(d)
    ensures DayNumber(Prev(d)) == DayNumber(d) - 1
  {
    if d.day == 1 && d.month == 1 {
      YearStep(d.year - 1);
    }
  }

  /** Stepping back one day steps the weekday back, Monday wrapping to Sunday. */
  lemma PrevWeekday(d: Date)
    requires Valid(d)
    ensures IsoWeekday(Prev(d)) == if IsoWeekday(d) == 1 then 7 else IsoWeekday(d) - 1
  {
    PrevNumber(d);
    ModSeven(DayNumber(Prev(d)));
  }

  lemma NextWeekday(d: Date)
    requires Valid(d)
    ensures IsoWeekday(Next(d)) == if IsoWeekday(d) == 7 then 1 else IsoWeekday(d) + 1
  {
    NextNumber(d);
    ModSeven(DayNumber(d));
  }

  lemma ModSeven(n: int)
    ensures (n + 1) % 7 == if n % 7 == 6 then 0 else n % 7 + 1
  {
  }

  /** `k` days back from `d`. */
  function PrevN(d: Date, k: nat): (r: Date)
    requires Valid(d)
    ensures Valid(r)
  {
    if k == 0 then d else Prev(PrevN(d, k - 1))
  }

  lemma {:induction false} PrevNNumber(d: Date, k: nat)
    requires Valid(d)
    ensures DayNumber(PrevN(d, k)) == DayNumber(d) - k
  {
    if k > 0 {
      PrevNNumber(d, k - 1);
      PrevNumber(PrevN(d, k - 1));
    }
  }

  /** `k` days on from `d`. */
  function NextN(d: Date, k: nat): (r: Date)
    requires Valid(d)
    ensures Valid(r)
  {
    if k == 0 then d else Next(NextN(d, k - 1))
  }

  /** The weekday `k` days on is the weekday of `d` advanced by `k`, modulo 7. */
  lemma {:induction false} NextNWeekday(d: Date, k: nat)
    requires Valid(d)
    ensures IsoWeekday(NextN(d, k)) == (IsoWeekday(d) - 1 + k) % 7 + 1
  {
    if k > 0 {
      var before := NextN(d, k - 1);
      NextNWeekday(d, k - 1);
      NextWeekday(before);
      ModSeven(IsoWeekday(d) - 1 + (k - 1));
      assert NextN(d, k) == Next(before);
    }
  }

  /** The (year, month) after the month of (y, m). */
  function NextMonthOf(y: int, m: int): (r: (int, int))
    requires 1 <= m <= 12
    ensures 1 <= r.1 <= 12
  {
    if m == 12 then (y + 1, 1) else (y, m + 1)
  }

  /** `d + monthdelta(1)`: the same day of the next month, clamped to the
      last day of that month. */
  function AddMonth(d: Date): (r: Date)
    requires Valid(d)
    ensures Valid(r)
  {
    var (y, m) := NextMonthOf(d.year, d.month);
    var n := DaysInMonth(y, m);
    Date(y, m, if d.day <= n then d.day else n)
  }

  /** A month shorter than 31 days is always followed by a 31-day month. */
  lemma ShortMonthThenLong(d: Date)
    requires Valid(d) && DaysInMonth(d.year, d.month) < 31
    ensures DaysInMonth(AddMonth(d).year, AddMonth(d).month) == 31
  {
  }

  lemma {:induction false} NextNNumber(d: Date, k: nat)
    requires Valid(d)
    ensures DayNumber(NextN(d, k)) == DayNumber(d) + k
  {
    if k > 0 {
      NextNNumber(d, k - 1);
      NextNumber(NextN(d, k - 1));
    }
  }

  /** Months counted from year 0: orders (year, month) pairs. */
  function MonthIndex(d: Date): int
  {
    12 * d.year + d.month - 1
  }

  lemma AddMonthIndex(d: Date)
    requires Valid(d)
    ensures MonthIndex(AddMonth(d)) == MonthIndex(d) + 1
  {
  }

  lemma {:induction false} DaysBeforeYearMonotone(a: int, b: int)
    requires a <= b
    ensures DaysBeforeYear(a) <= DaysBeforeYear(b)
    decreases b - a
  {
    if a < b {
      YearStep(a);
      DaysBeforeYearMonotone(a + 1, b);
    }
  }

  lemma {:induction false} DaysBeforeMonthMonotone(y: int, m1: int, m2: int)
    requires 1 <= m1 <= m2 <= 13
    ensures DaysBeforeMonth(y, m1) + (if m1 < m2 then DaysInMonth(y, m1) else 0) <= DaysBeforeMonth(y, m2)
    decreases m2 - m1
  {
    if m1 < m2 {
      DaysBeforeMonthMonotone(y, m1 + 1, m2);
      if m1 + 1 < m2 {
        assert DaysInMonth(y, m1 + 1) >= 0;
      }
    }
  }

  /** A date in a later month has a larger day number. */
  lemma LaterMonthLaterDay(a: Date, b: Date)
    requires Valid(a) && Valid(b) && MonthIndex(a) < MonthIndex(b)
    ensures DayNumber(a) < DayNumber(b)
  {
    if a.year == b.year {
      DaysBeforeMonthMonotone(a.year, a.month, b.month);
    } else {
      DaysBeforeMonthMonotone(a.year, a.month, 13);
      YearStep(a.year);
      DaysBeforeYearMonotone(a.year + 1, b.year);
      DaysBeforeMonthMonotone(b.year, 1, b.month);
    }
  }
}
