/** Job definitions of the scheduler (flask_production/jobs.py): the named
    day rules, the end-of-month rules, the interval validators of the job
    classes, the next-run computation of each job class, due-ness and the
    readable signature of a job. */
module Jobs {
  import opened Wrappers
  import opened Text
  import opened Calendar

  // ---------------------------------------------------------------------
  // Day rules (RUNABLE_DAYS)
  // ---------------------------------------------------------------------

  /** The keys of RUNABLE_DAYS: every interval a plain Job accepts. */
  const DayRules: set<string> := {
    "day", "weekday", "weekend", "businessday", "holiday", "trading-holiday",
    "monday", "tuesday", "wednesday", "thursday", "friday", "saturday", "sunday",
    "eom", "eom-weekday", "eom-businessday"
  }

  predicate IsWeekend(d: Date)
    requires Valid(d)
  {
    IsoWeekday(d) > 5
  }

  /** `_is_eom`: the day is the last day of its month. */
  predicate IsEom(d: Date)
    requires Valid(d)
  {
    d == EndOfMonth(d)
  }

  /** The last day of the month of `d` that is not a Saturday or Sunday. */
  function LastWeekdayOfMonth(d: Date): (r: Date)
    requires Valid(d)
    ensures Valid(r) && !IsWeekend(r)
  {
    var eom := EndOfMonth(d);
    var w := IsoWeekday(eom);
    PrevWeekday(eom);
    PrevWeekday(Prev(eom));
    if w == 6 then Prev(eom) else if w == 7 then Prev(Prev(eom)) else eom
  }

  /** `d in hols or d.isoweekday() >= 6`: the test the `_is_eom_businessday`
      loop steps back over. */
  predicate NotBusiness(d: Date, hols: set<Date>)
    requires Valid(d)
  {
    d in hols || IsoWeekday(d) >= 6
  }

  /** The holidays at or before `d` (a finite set that shrinks as the search
      steps back past a holiday). */
  function HolidaysUpTo(hols: set<Date>, d: Date): set<Date>
    requires Valid(d)
  {
    set h | h in hols && Valid(h) && DayNumber(h) <= DayNumber(d)
  }

  /** How many Saturday/Sunday steps remain before a Friday. */
  function WeekendDepth(d: Date): nat
    requires Valid(d)
  {
    var w := IsoWeekday(d);
    if w == 6 then 1 else if w == 7 then 2 else 0
  }

  lemma PrevPrevN(d: Date, k: nat)
    requires Valid(d)
    ensures PrevN(Prev(d), k) == PrevN(d, k + 1)
  {
    if k > 0 {
      PrevPrevN(d, k - 1);
    }
  }

  /** One step back over a holiday or weekend day either passes a holiday or
      moves from Sunday to Saturday or from Saturday to Friday. */
  lemma BackStepShrinks(d: Date, hols: set<Date>)
    requires Valid(d) && NotBusiness(d, hols)
    ensures var a, b := HolidaysUpTo(hols, Prev(d)), HolidaysUpTo(hols, d);
      |a| < |b| || (|a| == |b| && WeekendDepth(Prev(d)) < WeekendDepth(d))
  {
    PrevNumber(d);
    PrevWeekday(d);
    var a, b := HolidaysUpTo(hols, Prev(d)), HolidaysUpTo(hols, d);
    assert a <= b;
    if d in hols {
      assert d in b && d !in a;
      ProperSubsetSmaller(a, b);
    } else if a != b {
      ProperSubsetSmaller(a, b);
    }
  }

  lemma {:induction false} SubsetNoLarger<T>(a: set<T>, b: set<T>)
    requires a <= b
    ensures |a| <= |b|
    decreases |b|
  {
    if a != {} {
      var x :| x in a;
      SubsetNoLarger(a - {x}, b - {x});
    }
  }

  lemma ProperSubsetSmaller<T>(a: set<T>, b: set<T>)
    requires a <= b && a != b
    ensures |a| < |b|
  {
    assert b - a != {};
    var x :| x in b - a;
    SubsetNoLarger(a, b - {x});
  }

  lemma BackStepChain(d: Date, hols: set<Date>, k: nat)
    requires Valid(d) && NotBusiness(d, hols)
    requires !NotBusiness(PrevN(Prev(d), k), hols)
    requires forall j :: 0 <= j < k ==> NotBusiness(PrevN(Prev(d), j), hols)
    ensures !NotBusiness(PrevN(d, k + 1), hols)
    ensures forall j :: 0 <= j < k + 1 ==> NotBusiness(PrevN(d, j), hols)
  {
    PrevPrevN(d, k);
    forall j | 0 <= j < k + 1 ensures NotBusiness(PrevN(d, j), hols) {
      if j > 0 { PrevPrevN(d, j - 1); }
    }
  }

  /** The number of days the `_is_eom_businessday` loop steps back from `d`:
      the day that many steps back is a business day and every day before
      reaching it is a holiday or weekend day. */
  function BusinessBackSteps(d: Date, hols: set<Date>): (k: nat)
    requires Valid(d)
    ensures !NotBusiness(PrevN(d, k), hols)
    ensures forall j :: 0 <= j < k ==> NotBusiness(PrevN(d, j), hols)
    decreases |HolidaysUpTo(hols, d)|, WeekendDepth(d)
  {
    if NotBusiness(d, hols) then
      BackStepShrinks(d, hols);
      var k := BusinessBackSteps(Prev(d), hols);
      BackStepChain(d, hols, k);
      k + 1
    else 0
  }

  /** The latest business day of the month of `d`, found by stepping back
      from its last day. */
  function LastBusinessDayOfMonth(d: Date, hols: set<Date>): (r: Date)
    requires Valid(d)
    ensures Valid(r)
  {
    var eom := EndOfMonth(d);
    PrevN(eom, BusinessBackSteps(eom, hols))
  }

  /** RUNABLE_DAYS[rule](d, hols): whether a job with this day rule runs on `d`. */
  predicate RunsOn(rule: string, d: Date, hols: set<Date>)
    requires rule in DayRules && Valid(d)
    ensures RunsOn(rule, d, hols) && rule in {"weekday", "businessday", "trading-holiday", "eom-weekday", "eom-businessday"}
            ==> IsoWeekday(d) < 6
    ensures RunsOn(rule, d, hols) && rule in {"businessday", "eom-businessday"} ==> d !in hols
    ensures RunsOn(rule, d, hols) && rule in {"weekend", "saturday", "sunday"} ==> IsoWeekday(d) > 5
  {
    LastBusinessDayIsLatest(d, hols);
    var w := IsoWeekday(d);
    match rule
    case "day" => true
    case "weekday" => w < 6
    case "weekend" => w > 5
    case "businessday" => d !in hols && w < 6
    case "holiday" => d in hols || w > 5
    case "trading-holiday" => d in hols && w < 6
    case "monday" => w == 1
    case "tuesday" => w == 2
    case "wednesday" => w == 3
    case "thursday" => w == 4
    case "friday" => w == 5
    case "saturday" => w == 6
    case "sunday" => w == 7
    case "eom" => IsEom(d)
    case "eom-weekday" => d == LastWeekdayOfMonth(d)
    case _ => d == LastBusinessDayOfMonth(d, hols)
  }

  /** Every day is exactly one of a business day, a trading holiday or a
      weekend day, and it is a holiday exactly when it is a trading holiday
      or a weekend day. */
  lemma DayKindsPartition(d: Date, hols: set<Date>)
    requires Valid(d)
    ensures RunsOn("businessday", d, hols) || RunsOn("trading-holiday", d, hols) || RunsOn("weekend", d, hols)
    ensures !(RunsOn("businessday", d, hols) && RunsOn("trading-holiday", d, hols))
    ensures !(RunsOn("businessday", d, hols) && RunsOn("weekend", d, hols))
    ensures !(RunsOn("trading-holiday", d, hols) && RunsOn("weekend", d, hols))
    ensures RunsOn("holiday", d, hols) <==> RunsOn("trading-holiday", d, hols) || RunsOn("weekend", d, hols)
  {
  }

  /** `_is_eom_weekday(d, hols)`: steps back from the end of the month over
      Saturdays and Sundays and compares. */
  method IsEomWeekday(d: Date) returns (r: bool)
    requires Valid(d)
    ensures r <==> d == LastWeekdayOfMonth(d)
  {
    var eom := EndOfMonth(d);
    ghost var steps: nat := 0;
    while IsoWeekday(eom) >= 6
      invariant Valid(eom) && eom == PrevN(EndOfMonth(d), steps)
      invariant steps == 0 || (steps == 1 && IsoWeekday(eom) == 6 && IsoWeekday(EndOfMonth(d)) == 7)
                || (steps == 1 && IsoWeekday(eom) == 5 && IsoWeekday(EndOfMonth(d)) == 6)
                || (steps == 2 && IsoWeekday(eom) == 5 && IsoWeekday(EndOfMonth(d)) == 7)
      decreases IsoWeekday(eom)
    {
      PrevWeekday(eom);
      eom := Prev(eom);
      steps := steps + 1;
    }
    r := d == eom;
  }

  /** `_is_eom_businessday(d, hols)`: steps back from the end of the month
      over holidays and weekend days and compares. */
  method IsEomBusinessday(d: Date, hols: set<Date>) returns (r: bool)
    requires Valid(d)
    ensures r <==> d == LastBusinessDayOfMonth(d, hols)
  {
    var eom := EndOfMonth(d);
    ghost var steps: nat := 0;
    while eom in hols || IsoWeekday(eom) >= 6
      invariant Valid(eom) && eom == PrevN(EndOfMonth(d), steps)
      invariant forall j :: 0 <= j < steps ==> NotBusiness(PrevN(EndOfMonth(d), j), hols)
      invariant steps <= BusinessBackSteps(EndOfMonth(d), hols)
      decreases BusinessBackSteps(EndOfMonth(d), hols) - steps
    {
      eom := Prev(eom);
      steps := steps + 1;
    }
    r := d == eom;
  }

  /** The end-of-month business day is a business day, lies in the month or
      before it, and every later day up to the end of the month is a holiday
      or a weekend day. */
  lemma LastBusinessDayIsLatest(d: Date, hols: set<Date>)
    requires Valid(d)
    ensures var r := LastBusinessDayOfMonth(d, hols);
      r !in hols && IsoWeekday(r) < 6 && DayNumber(r) <= DayNumber(EndOfMonth(d))
    ensures var eom := EndOfMonth(d);
      forall j :: 0 <= j < BusinessBackSteps(eom, hols) ==>
        PrevN(eom, j) in hols || IsWeekend(PrevN(eom, j))
  {
    var eom := EndOfMonth(d);
    PrevNNumber(eom, BusinessBackSteps(eom, hols));
  }

  /** The end-of-month weekday is the last day of the month, or the Friday
      just before it when the month ends on a Saturday or Sunday. */
  lemma LastWeekdayIsLatest(d: Date)
    requires Valid(d)
    ensures var eom := EndOfMonth(d);
      LastWeekdayOfMonth(d) == PrevN(eom, WeekendDepth(eom))
    ensures var eom := EndOfMonth(d);
      forall j :: 0 <= j < WeekendDepth(eom) ==> IsWeekend(PrevN(eom, j))
  {
    var eom := EndOfMonth(d);
    PrevWeekday(eom);
    PrevWeekday(Prev(eom));
    assert PrevN(eom, 1) == Prev(eom);
    assert PrevN(eom, 2) == Prev(Prev(eom));
  }

  // ---------------------------------------------------------------------
  // Intervals and their validators (is_valid_interval of each job class)
  // ---------------------------------------------------------------------

  /** The `every(...)` argument: a number of seconds or a string. */
  datatype Interval = Seconds(n: int) | Text(s: string)

  /** str(interval) */
  function IntervalString(i: Interval): string
  {
    match i
    case Seconds(n) => IntToString(n)
    case Text(s) => s
  }

  /** Job.is_valid_interval: the interval is a key of RUNABLE_DAYS. */
  predicate IsValidDayRule(i: Interval)
  {
    i.Text? && i.s in DayRules
  }

  /** RepeatJob.is_valid_interval: the interval is a number. */
  predicate IsValidRepeatInterval(i: Interval)
  {
    i.Seconds?
  }

  function Lower(c: char): char
  {
    if 'A' <= c <= 'Z' then (c as int + 32) as char else c
  }

  /** One of the ordinal suffixes st, nd, rd, th, in any case. */
  predicate OrdinalSuffix(a: char, b: char)
  {
    var x, y := Lower(a), Lower(b);
    (x == 's' && y == 't') || (x == 'n' && y == 'd') || (x == 'r' && y == 'd') || (x == 't' && y == 'h')
  }

  /** The text of a monthly interval without the one final line feed that
      the pattern's `$` lets through. */
  function MonthDayBody(s: string): string
  {
    if |s| > 0 && s[|s| - 1] == '\n' then s[..|s| - 1] else s
  }

  /** The day number written by a monthly interval: the match of
      `^(\d{1,2})(st|nd|rd|th)$` (ignoring case), or None. The suffix is
      not checked against the number. */
  function MonthDayOf(s: string): (r: Option<nat>)
    ensures r.Some? ==> r.value <= 99
    ensures r.Some? ==> var b := MonthDayBody(s); 3 <= |b| <= 4 && !IsDigit(b[|b| - 1])
  {
    var b := MonthDayBody(s);
    if |b| == 3 && IsDigit(b[0]) && OrdinalSuffix(b[1], b[2]) then Some(DigitValue(b[0]))
    else if |b| == 4 && IsDigit(b[0]) && IsDigit(b[1]) && OrdinalSuffix(b[2], b[3]) then
      Some(10 * DigitValue(b[0]) + DigitValue(b[1]))
    else None
  }

  /** MonthlyJob.is_valid_interval, as written: the pattern matches and the
      number is at most 31. */
  predicate IsValidMonthlyInterval(i: Interval)
    ensures IsValidMonthlyInterval(i) <==> IsValidMonthlyIntervalFixed(i) || MonthDayOf(IntervalString(i)) == Some(0)
  {
    var m := MonthDayOf(IntervalString(i));
    m.Some? && m.value <= 31
  }

  /** A month field of `%m`: "1".."9" or "01".."12". */
  function MonthField(p: string): Option<int>
  {
    if |p| == 1 && '1' <= p[0] <= '9' then Some(DigitValue(p[0]))
    else if |p| == 2 && IsDigit(p[0]) && IsDigit(p[1]) && 1 <= 10 * DigitValue(p[0]) + DigitValue(p[1]) <= 12 then
      Some(10 * DigitValue(p[0]) + DigitValue(p[1]))
    else None
  }

  /** A day field of `%d`: "1".."9", " 1".." 9" or "01".."31". */
  function DayField(p: string): Option<int>
  {
    if |p| == 1 && '1' <= p[0] <= '9' then Some(DigitValue(p[0]))
    else if |p| == 2 && p[0] == ' ' && '1' <= p[1] <= '9' then Some(DigitValue(p[1]))
    else if |p| == 2 && IsDigit(p[0]) && IsDigit(p[1]) && 1 <= 10 * DigitValue(p[0]) + DigitValue(p[1]) <= 31 then
      Some(10 * DigitValue(p[0]) + DigitValue(p[1]))
    else None
  }

  /** `datetime.strptime(s, "%Y-%m-%d")` on ASCII input: a four-digit year
      from 1, a month, a day, and a date that exists. */
  function ParseIsoDate(s: string): (r: Option<Date>)
    ensures r.Some? ==> Valid(r.value) && r.value.year >= 1
  {
    var parts := Split(s, '-');
    if |parts| != 3 || |parts[0]| != 4 || !(forall k :: 0 <= k < 4 ==> IsDigit(parts[0][k])) then None
    else
      var y := ParseDigits(parts[0]);
      var m, d := MonthField(parts[1]), DayField(parts[2]);
      if y >= 1 && m.Some? && d.Some? && Valid(Date(y, m.value, d.value)) then Some(Date(y, m.value, d.value))
      else None
  }

  /** OneTimeJob.is_valid_interval: a string that strptime reads as a date. */
  predicate IsValidOneTimeInterval(i: Interval)
    ensures IsValidOneTimeInterval(i) ==> i.Text? && 8 <= |i.s| <= 10 && i.s[4] == '-'
  {
    if i.Text? && ParseIsoDate(i.s).Some? then OneTimeShape(i.s); true else false
  }

  /** A string strptime reads as `%Y-%m-%d` is a four-digit year, a dash, one
      or two characters of month, a dash and one or two of day. */
  lemma OneTimeShape(s: string)
    requires ParseIsoDate(s).Some?
    ensures 8 <= |s| <= 10 && s[4] == '-'
  {
    var parts := Split(s, '-');
    JoinSplit(s, '-');
    assert |parts| == 3 && |parts[0]| == 4;
    assert 1 <= |parts[1]| <= 2 && 1 <= |parts[2]| <= 2;
    assert parts[1..][1..] == [parts[2]];
    assert Join("-", parts[1..]) == parts[1] + "-" + parts[2];
    assert s == parts[0] + "-" + (parts[1] + "-" + parts[2]);
  }

  /** The monthly validator accepts exactly a one- or two-digit number up to
      31 with any of the four suffixes in any case; "1th" and "22st" pass. */
  lemma MonthlyIntervalExamples()
    ensures IsValidMonthlyInterval(Text("1st")) && IsValidMonthlyInterval(Text("22nd"))
    ensures IsValidMonthlyInterval(Text("31ST")) && IsValidMonthlyInterval(Text("1th"))
    ensures IsValidMonthlyInterval(Text("3rd\n"))
    ensures !IsValidMonthlyInterval(Text("32nd")) && !IsValidMonthlyInterval(Text("123rd"))
    ensures !IsValidMonthlyInterval(Text("st")) && !IsValidMonthlyInterval(Text("1"))
    ensures !IsValidMonthlyInterval(Seconds(1))
  {
    assert MonthDayOf("1st") == Some(1);
    assert MonthDayOf("22nd") == Some(22);
    assert MonthDayOf("31ST") == Some(31);
    assert MonthDayOf("1th") == Some(1);
    assert MonthDayOf("3rd\n") == Some(3);
    assert MonthDayOf("32nd") == Some(32);
    assert IntervalString(Seconds(1)) == "1";
  }

  /** A monthly interval is never a day rule, a date or a number, so the
      validators of the built-in classes other than RepeatJob are disjoint
      on strings. */
  lemma MonthlyExcludesOthers(i: Interval)
    requires IsValidMonthlyInterval(i)
    ensures !IsValidRepeatInterval(i) && !IsValidDayRule(i) && !IsValidOneTimeInterval(i)
  {
    if i.Text? {
      MonthlyHasNoDash(i.s);
      assert Split(i.s, '-') == [i.s];
    }
  }

  /** A monthly interval is digits, letters and at most a line feed. */
  lemma MonthlyHasNoDash(s: string)
    requires MonthDayOf(s).Some?
    ensures '-' !in s
  {
    var b := MonthDayBody(s);
    assert s == b || s == b + ['\n'];
    assert '-' !in b by {
      if |b| == 3 {
        assert b == [b[0], b[1], b[2]];
      } else {
        assert b == [b[0], b[1], b[2], b[3]];
      }
    }
  }

  // ---------------------------------------------------------------------
  // Clock time and timestamps
  // ---------------------------------------------------------------------

  /** The `at` time of a job, "HH:MM" read as two integers. */
  datatype Clock = Clock(hour: int, minute: int)

  predicate ValidClock(c: Clock)
  {
    0 <= c.hour < 24 && 0 <= c.minute < 60
  }

  /** The local wall-clock moment `datetime.now()`, to the second. */
  datatype Moment = Moment(date: Date, hour: int, minute: int, second: int)

  predicate ValidMoment(t: Moment)
  {
    Valid(t.date) && 0 <= t.hour < 24 && 0 <= t.minute < 60 && 0 <= t.second < 60
  }

  /** The day number of 1970-01-01. */
  const EpochDay := 719162

  /** `to_timestamp(datetime(d, hour, minute))`: local seconds since
      1970-01-01 00:00. */
  function Timestamp(d: Date, c: Clock): int
    requires Valid(d)
  {
    (DayNumber(d) - EpochDay) * 86400 + c.hour * 3600 + c.minute * 60
  }

  /** `time.time()` at moment `t`, whole seconds. */
  function NowTs(t: Moment): int
    requires ValidMoment(t)
  {
    Timestamp(t.date, Clock(t.hour, t.minute)) + t.second
  }

  /** `int(x / 60.0)`: division truncated toward zero. */
  function TruncDiv60(x: int): int
  {
    if x >= 0 then x / 60 else -((-x) / 60)
  }

  /** The instant at a clock time on a later day is later than any instant
      of an earlier day. */
  lemma LaterDayLaterTime(a: Date, ca: Clock, b: Date, cb: Clock, s: int)
    requires Valid(a) && Valid(b) && ValidClock(ca) && ValidClock(cb) && 0 <= s < 60
    requires DayNumber(a) < DayNumber(b)
    ensures Timestamp(a, ca) + s < Timestamp(b, cb)
  {
  }

  // ---------------------------------------------------------------------
  // Job.schedule_next_run: day-rule jobs
  // ---------------------------------------------------------------------

  /** The entry of RUNABLE_DAYS for `rule` with the job's calendar: the day
      test the scheduler looks up by name. */
  function DayTest(rule: string, hols: set<Date>): (test: Date -> bool)
    requires rule in DayRules
    ensures forall d :: Valid(d) ==> (test(d) <==> RunsOn(rule, d, hols))
  {
    d => Valid(d) && RunsOn(rule, d, hols)
  }

  /** `day` is `k` days on from `d` (counting `d` as 0), `test` holds on it
      and on none of the days before it. */
  ghost predicate FirstRunDay(test: Date -> bool, d: Date, day: Date, k: nat)
    requires Valid(d)
  {
    day == NextN(d, k) && test(day) && forall j :: 0 <= j < k ==> !test(NextN(d, j))
  }

  /** The `while not self._job_must_run_today(next_day)` search: steps one day
      at a time from `d` to the first day the test holds on. It stops only if
      such a day exists. */
  method FirstRunDayFrom(test: Date -> bool, d: Date) returns (day: Date)
    requires Valid(d)
    requires exists k: nat :: test(NextN(d, k))
    ensures exists k: nat :: FirstRunDay(test, d, day, k)
  {
    ghost var bound: nat :| test(NextN(d, bound));
    ghost var k: nat := 0;
    day := d;
    while !test(day)
      invariant k <= bound && day == NextN(d, k)
      invariant forall j :: 0 <= j < k ==> !test(NextN(d, j))
      decreases bound - k
    {
      day := Next(day);
      k := k + 1;
    }
    assert FirstRunDay(test, d, day, k);
  }

  /** The next run of a day-rule job: today's slot when the rule holds today,
      the job did not just run and now is before the slot plus the startup
      offset; otherwise the slot on the first later day the rule holds on. */
  ghost predicate IsDailyNextRun(rule: string, at: Clock, now: Moment, justRan: bool, offset: int,
                                 hols: set<Date>, ts: int)
    requires rule in DayRules && ValidMoment(now)
  {
    var slot := Timestamp(now.date, at);
    if TakesTodaysSlot(rule, at, now, justRan, offset, hols) then ts == slot
    else exists k: nat :: FirstRunDay(DayTest(rule, hols), Next(now.date), NextN(Next(now.date), k), k)
                          && ts == Timestamp(NextN(Next(now.date), k), at)
  }

  /** The first branch of schedule_next_run: the rule holds today, the job
      did not just run and now is before today's slot plus the startup
      offset. */
  predicate TakesTodaysSlot(rule: string, at: Clock, now: Moment, justRan: bool, offset: int, hols: set<Date>)
    requires rule in DayRules && ValidMoment(now)
  {
    RunsOn(rule, now.date, hols) && !justRan && NowTs(now) < Timestamp(now.date, at) + offset
  }

  /** Job.schedule_next_run for a day-rule job. Unless today's slot is taken
      the search for a later day needs one to exist. */
  method DailyNextRun(rule: string, at: Clock, now: Moment, justRan: bool, offset: int,
                      hols: set<Date>) returns (ts: int)
    requires rule in DayRules && ValidMoment(now)
    requires TakesTodaysSlot(rule, at, now, justRan, offset, hols)
             || exists k: nat :: RunsOn(rule, NextN(Next(now.date), k), hols)
    ensures IsDailyNextRun(rule, at, now, justRan, offset, hols, ts)
  {
    var slot := Timestamp(now.date, at);
    if TakesTodaysSlot(rule, at, now, justRan, offset, hols) {
      ts := slot;
    } else {
      var test := DayTest(rule, hols);
      ghost var k: nat :| RunsOn(rule, NextN(Next(now.date), k), hols);
      assert test(NextN(Next(now.date), k));
      var day := FirstRunDayFrom(test, Next(now.date));
      ts := Timestamp(day, at);
    }
  }

  /** The next run of a day-rule job is always at the job's clock time on a
      day the rule holds on, and never earlier than now less the startup
      offset; with no offset it is in the future. */
  lemma DailyNextRunBounds(rule: string, at: Clock, now: Moment, justRan: bool, offset: int,
                                 hols: set<Date>, ts: int)
    requires rule in DayRules && ValidMoment(now) && ValidClock(at) && offset >= 0
    requires IsDailyNextRun(rule, at, now, justRan, offset, hols, ts)
    ensures ts > NowTs(now) - offset
    ensures exists day :: Valid(day) && RunsOn(rule, day, hols) && DayNumber(day) >= DayNumber(now.date)
                          && ts == Timestamp(day, at)
  {
    if TakesTodaysSlot(rule, at, now, justRan, offset, hols) {
      assert ts == Timestamp(now.date, at);
    } else {
      var k: nat :| FirstRunDay(DayTest(rule, hols), Next(now.date), NextN(Next(now.date), k), k)
                    && ts == Timestamp(NextN(Next(now.date), k), at);
      var day := NextN(Next(now.date), k);
      NextNNumber(Next(now.date), k);
      NextNumber(now.date);
      LaterDayLaterTime(now.date, Clock(now.hour, now.minute), day, at, now.second);
    }
  }

  /** Rules that name days of the week hold at least once in any seven
      consecutive days, so the search of a job with such a rule stops. */
  lemma WeeklyRuleHoldsWithinAWeek(rule: string, d: Date, hols: set<Date>)
    requires Valid(d)
    requires rule in {"day", "weekday", "weekend", "monday", "tuesday", "wednesday",
                      "thursday", "friday", "saturday", "sunday"}
    ensures exists k: nat :: k < 7 && RunsOn(rule, NextN(d, k), hols)
  {
    var w := IsoWeekday(d);
    var target :=
      if rule == "monday" then 1 else if rule == "tuesday" then 2 else if rule == "wednesday" then 3
      else if rule == "thursday" then 4 else if rule == "friday" then 5 else if rule == "saturday" then 6
      else if rule == "sunday" then 7 else if rule == "weekend" then (if w > 5 then w else 6)
      else if w < 6 then w else 1;
    var k := WeekdayWithinAWeek(d, target);
    assert RunsOn(rule, NextN(d, k), hols);
  }

  /** Some day of the seven from `d` on falls on each weekday. */
  lemma WeekdayWithinAWeek(d: Date, target: int) returns (k: nat)
    requires Valid(d) && 1 <= target <= 7
    ensures k < 7 && IsoWeekday(NextN(d, k)) == target
  {
    k := (target - IsoWeekday(d) + 7) % 7;
    NextNWeekday(d, k);
  }

  // ---------------------------------------------------------------------
  // OneTimeJob.schedule_next_run
  // ---------------------------------------------------------------------

  /** The next run of a one-time job at `target`: 0 (expired) once it has
      run, or when now is past the target by more than the startup offset
      in whole minutes; the target otherwise. */
  function OneTimeNextRun(target: Date, at: Clock, now: Moment, justRan: bool, offset: int): (ts: int)
    requires Valid(target) && ValidMoment(now)
    ensures ts == 0 || ts == Timestamp(target, at)
    ensures justRan ==> ts == 0
    ensures NowTs(now) > Timestamp(target, at) + 60 * TruncDiv60(offset) ==> ts == 0
    ensures !justRan && NowTs(now) <= Timestamp(target, at) + 60 * TruncDiv60(offset) ==> ts == Timestamp(target, at)
  {
    if justRan || NowTs(now) > Timestamp(target, at) + 60 * TruncDiv60(offset) then 0
    else Timestamp(target, at)
  }

  // ---------------------------------------------------------------------
  // RepeatJob.schedule_next_run
  // ---------------------------------------------------------------------

  const IllegalRepeatInterval := "Illegal interval for repeating job. Expected number of seconds"

  /** The next run of a repeating job: BadScheduleError unless the interval
      is a positive number of seconds; after a run the previous next-run
      time plus the interval, otherwise now plus the interval. */
  function RepeatNextRun(interval: Interval, next: int, now: int, justRan: bool): (r: Result<int>)
    ensures r.Err? <==> !(interval.Seconds? && interval.n > 0)
    ensures r.Err? ==> r.error == IllegalRepeatInterval
    ensures r.Ok? ==> r.value > (if justRan then next else now)
    ensures r.Ok? ==> r.value - (if justRan then next else now) == interval.n
  {
    if !interval.Seconds? || interval.n <= 0 then Err(IllegalRepeatInterval)
    else if justRan then Ok(next + interval.n)
    else Ok(now + interval.n)
  }

  /** The next-run time of a repeating job scheduled at `start` and then run
      `runs` times. */
  function RepeatAfterRuns(n: int, start: int, runs: nat): Result<int>
  {
    if runs == 0 then RepeatNextRun(Seconds(n), 0, start, false)
    else
      var prev := RepeatAfterRuns(n, start, runs - 1);
      if prev.Err? then prev else RepeatNextRun(Seconds(n), prev.value, start, true)
  }

  /** Runs do not drift: after `runs` runs the next run is the start plus
      `runs + 1` intervals, whatever the time of each run. */
  lemma {:induction false} RepeatRunsDoNotDrift(n: int, start: int, runs: nat)
    requires n > 0
    ensures RepeatAfterRuns(n, start, runs) == Ok(start + (runs + 1) * n)
  {
    if runs > 0 {
      RepeatRunsDoNotDrift(n, start, runs - 1);
    }
  }

  // ---------------------------------------------------------------------
  // MonthlyJob.schedule_next_run
  // ---------------------------------------------------------------------

  /** Whether the monthly schedule switches to the next month: the job just
      ran, its day has passed this month, it is today and the time has
      passed, or today is the last day of a month too short for it and the
      time has passed. The time comparison adds the startup offset in
      minutes. */
  predicate MonthlyAdvance(day: int, at: Clock, now: Moment, justRan: bool, offset: int)
    requires ValidMoment(now)
  {
    var timePassed := at.hour < now.hour || (at.hour == now.hour && at.minute + TruncDiv60(offset) < now.minute);
    justRan || day < now.date.day || (day == now.date.day && timePassed)
    || (day > now.date.day && IsEom(now.date) && timePassed)
  }

  /** The date a monthly job for day `day` runs on next: the month chosen by
      MonthlyAdvance; if that month is too short, its last day (not strict)
      or the same day of the following month (strict, which always has 31
      days); ValueError for day 0. */
  function MonthlyRunDate(day: int, strict: bool, at: Clock, now: Moment, justRan: bool, offset: int): (r: Result<Date>)
    requires ValidMoment(now) && day <= 31
    ensures r.Ok? ==> Valid(r.value)
  {
    var base := if MonthlyAdvance(day, at, now, justRan, offset) then AddMonth(now.date) else now.date;
    var dim := DaysInMonth(base.year, base.month);
    if day < 1 then Err("day is out of range for month")
    else if day <= dim then Ok(Date(base.year, base.month, day))
    else if !strict then Ok(Date(base.year, base.month, dim))
    else
      ShortMonthThenLong(base);
      var later := AddMonth(base);
      Ok(Date(later.year, later.month, day))
  }

  /** MonthlyJob.schedule_next_run, with its month-advancing loop. */
  method MonthlyNextRunDate(day: int, strict: bool, at: Clock, now: Moment, justRan: bool, offset: int)
    returns (r: Result<Date>)
    requires ValidMoment(now) && day <= 31
    ensures r == MonthlyRunDate(day, strict, at, now, justRan, offset)
  {
    var schedDay := now.date;
    if MonthlyAdvance(day, at, now, justRan, offset) {
      schedDay := AddMonth(schedDay);
    }
    ghost var base := schedDay;
    var runDay := day;
    if day > DaysInMonth(schedDay.year, schedDay.month) {
      if !strict {
        runDay := DaysInMonth(schedDay.year, schedDay.month);
      } else {
        while day > DaysInMonth(schedDay.year, schedDay.month)
          invariant Valid(schedDay)
          invariant schedDay == base || schedDay == AddMonth(base)
          invariant schedDay == AddMonth(base) ==> DaysInMonth(schedDay.year, schedDay.month) == 31
          decreases if schedDay == base then 1 else 0
        {
          ShortMonthThenLong(schedDay);
          schedDay := AddMonth(schedDay);
        }
      }
    }
    if runDay < 1 {
      r := Err("day is out of range for month");
    } else {
      r := Ok(Date(schedDay.year, schedDay.month, runDay));
    }
  }

  /** The monthly run date: an error exactly for day 0; otherwise a real
      date on the requested day (strict) or on that day clamped to the
      month's last day (not strict); in this month or the next when not
      strict, and at most two months on when strict, the extra month only
      when the chosen month is too short. */
  lemma MonthlyRunDateSpec(day: int, strict: bool, at: Clock, now: Moment, justRan: bool, offset: int)
    requires ValidMoment(now) && 0 <= day <= 31
    ensures var r := MonthlyRunDate(day, strict, at, now, justRan, offset);
      && (r.Err? <==> day == 0)
      && (r.Ok? ==> r.value.day <= day)
      && (r.Ok? && strict ==> r.value.day == day)
      && (r.Ok? && !strict ==> r.value.day == if day <= DaysInMonth(r.value.year, r.value.month) then day
                                             else DaysInMonth(r.value.year, r.value.month))
    ensures var r := MonthlyRunDate(day, strict, at, now, justRan, offset);
      var adv := MonthlyAdvance(day, at, now, justRan, offset);
      var base := if adv then AddMonth(now.date) else now.date;
      r.Ok? ==> MonthIndex(r.value) == MonthIndex(now.date) + (if adv then 1 else 0)
                                      + (if strict && day > DaysInMonth(base.year, base.month) then 1 else 0)
  {
    var base := if MonthlyAdvance(day, at, now, justRan, offset) then AddMonth(now.date) else now.date;
    AddMonthIndex(now.date);
    if day > DaysInMonth(base.year, base.month) && strict {
      AddMonthIndex(base);
    }
  }

  /** A monthly job is never scheduled before the current minute less the
      startup offset: a run date in this month is today or later, and the
      time is checked when it is today. */
  lemma MonthlyRunNotInPast(day: int, strict: bool, at: Clock, now: Moment, justRan: bool, offset: int)
    requires ValidMoment(now) && ValidClock(at) && 1 <= day <= 31 && offset >= 0
    ensures var r := MonthlyRunDate(day, strict, at, now, justRan, offset);
      r.Ok? && Timestamp(r.value, at) >= Timestamp(now.date, Clock(now.hour, now.minute)) - 60 * TruncDiv60(offset)
  {
    var r := MonthlyRunDate(day, strict, at, now, justRan, offset);
    MonthlyRunDateSpec(day, strict, at, now, justRan, offset);
    var d := r.value;
    if MonthIndex(d) > MonthIndex(now.date) {
      LaterMonthLaterDay(now.date, d);
      LaterDayLaterTime(now.date, Clock(now.hour, now.minute), d, at, 0);
    } else if d.day > now.date.day {
      assert DayNumber(d) > DayNumber(now.date);
      LaterDayLaterTime(now.date, Clock(now.hour, now.minute), d, at, 0);
    } else {
      assert d == now.date;
    }
  }

  /** The monthly validator as written lets a day of 0 through ("0th"),
      and scheduling that job then fails. */
  lemma ZeroDayAcceptedThenFails(strict: bool, at: Clock, now: Moment, justRan: bool, offset: int)
    requires ValidMoment(now)
    ensures IsValidMonthlyInterval(Text("0th"))
    ensures MonthlyRunDate(MonthDayOf("0th").value, strict, at, now, justRan, offset).Err?
  {
    assert MonthDayOf("0th") == Some(0);
  }

  /** The monthly validator with the evident intent: a day from 1 to 31. */
  predicate IsValidMonthlyIntervalFixed(i: Interval)
  {
    var m := MonthDayOf(IntervalString(i));
    m.Some? && 1 <= m.value <= 31
  }

  /** Every interval the corrected validator accepts is a string whose
      monthly schedule succeeds in every situation. */
  lemma FixedMonthlyIntervalSchedules(i: Interval, strict: bool, at: Clock, now: Moment, justRan: bool, offset: int)
    requires IsValidMonthlyIntervalFixed(i) && ValidMoment(now)
    ensures i.Text? && IsValidMonthlyInterval(i)
    ensures MonthlyRunDate(MonthDayOf(i.s).value, strict, at, now, justRan, offset).Ok?
  {
    MonthlyExcludesOthers(i);
    MonthlyRunDateSpec(MonthDayOf(i.s).value, strict, at, now, justRan, offset);
  }

  // ---------------------------------------------------------------------
  // The job object
  // ---------------------------------------------------------------------

  /** The built-in job classes: Job (a day rule), OneTimeJob, RepeatJob and
      MonthlyJob with its `_strict_date`. */
  datatype Kind = Daily | OneTime | Repeat | Monthly(strict: bool)

  /** The class's is_valid_interval (MonthlyJob's as written, which accepts
      day 0; it only ever accepts strings). */
  predicate Accepts(kind: Kind, i: Interval)
  {
    match kind
    case Daily => IsValidDayRule(i)
    case OneTime => IsValidOneTimeInterval(i)
    case Repeat => IsValidRepeatInterval(i)
    case Monthly(_) => i.Text? && IsValidMonthlyInterval(i)
  }

  const JobExpiredMessage := "remove me!"

  /** A job: its fixed definition and the two fields the scheduler updates,
      the next-run timestamp and the running flag. */
  class Job {
    const jobid: int
    const kind: Kind
    const interval: Interval
    const at: Clock
    const calendar: set<Date>
    const startupOffset: int
    var nextTimestamp: int
    var isRunning: bool

    predicate WellFormed()
    {
      Accepts(kind, interval) && ValidClock(at)
    }

    constructor (jobid: int, kind: Kind, interval: Interval, at: Clock, calendar: set<Date>, startupOffset: int)
      requires Accepts(kind, interval) && ValidClock(at)
      ensures this.jobid == jobid && this.kind == kind && this.interval == interval && this.at == at
      ensures this.calendar == calendar && this.startupOffset == startupOffset
      ensures nextTimestamp == 0 && !isRunning && WellFormed()
    {
      this.jobid := jobid;
      this.kind := kind;
      this.interval := interval;
      this.at := at;
      this.calendar := calendar;
      this.startupOffset := startupOffset;
      nextTimestamp := 0;
      isRunning := false;
    }

    /** schedule_next_run of the job's class: on success the new next-run
      timestamp; on BadScheduleError (or the ValueError of a MonthlyJob for
      day 0) the message and no change. A day-rule job that does not take
      today's slot needs a later day its rule holds on, or the search never
      ends. */
    method ScheduleNextRun(now: Moment, justRan: bool) returns (error: Option<string>)
      requires WellFormed() && ValidMoment(now)
      requires kind.Daily? ==> TakesTodaysSlot(interval.s, at, now, justRan, startupOffset, calendar)
                               || exists k: nat :: RunsOn(interval.s, NextN(Next(now.date), k), calendar)
      modifies this`nextTimestamp
      ensures error.Some? ==> nextTimestamp == old(nextTimestamp)
      ensures kind.Daily? ==>
        error == None && IsDailyNextRun(interval.s, at, now, justRan, startupOffset, calendar, nextTimestamp)
      ensures kind.OneTime? ==>
        error == None && nextTimestamp == OneTimeNextRun(ParseIsoDate(interval.s).value, at, now, justRan, startupOffset)
      ensures kind.Repeat? ==>
        var r := RepeatNextRun(interval, old(nextTimestamp), NowTs(now), justRan);
        (r.Ok? ==> error == None && nextTimestamp == r.value) && (r.Err? ==> error == Some(r.error))
      ensures kind.Monthly? ==>
        var r := MonthlyRunDate(MonthDayOf(interval.s).value, kind.strict, at, now, justRan, startupOffset);
        (r.Ok? ==> error == None && nextTimestamp == Timestamp(r.value, at)) && (r.Err? ==> error == Some(r.error))
    {
      error := None;
      match kind
      case Daily =>
        nextTimestamp := DailyNextRun(interval.s, at, now, justRan, startupOffset, calendar);
      case OneTime =>
        var target := ParseIsoDate(interval.s).value;
        nextTimestamp := OneTimeNextRun(target, at, now, justRan, startupOffset);
      case Repeat =>
        var r := RepeatNextRun(interval, nextTimestamp, NowTs(now), justRan);
        if r.Err? {
          error := Some(r.error);
        } else {
          nextTimestamp := r.value;
        }
      case Monthly(strict) =>
        var r := MonthlyNextRunDate(MonthDayOf(interval.s).value, strict, at, now, justRan, startupOffset);
        if r.Err? {
          error := Some(r.error);
        } else {
          nextTimestamp := Timestamp(r.value, at);
        }
    }

    /** is_due: JobExpired for a one-time job that has expired; otherwise
      whether the next-run time has come and the job is not running. */
    function IsDue(now: int): (r: Result<bool>)
      reads this
      ensures r.Err? <==> kind.OneTime? && nextTimestamp == 0
      ensures r.Err? ==> r.error == JobExpiredMessage
      ensures r.Ok? ==> (r.value <==> now >= nextTimestamp && !isRunning)
    {
      if kind.OneTime? && nextTimestamp == 0 then Err(JobExpiredMessage)
      else Ok(now >= nextTimestamp && !isRunning)
    }
  }

  /** A one-time job is due at most once: the schedule after its run expires
      it, and its due test then raises JobExpired. */
  method OneTimeJobRunsOnce(job: Job, now: Moment, later: int) returns (due: Result<bool>)
    requires job.WellFormed() && job.kind.OneTime? && ValidMoment(now)
    modifies job
    ensures due == Err(JobExpiredMessage)
  {
    var _ := job.ScheduleNextRun(now, true);
    due := job.IsDue(later);
  }

  // ---------------------------------------------------------------------
  // func_signature
  // ---------------------------------------------------------------------

  /** A keyword-argument value, as far as readable_trim looks at it: a list,
      a set, a dict or anything else, with its str() text. */
  datatype ArgValue = ListArg | SetArg | DictArg(text: string) | OtherArg(text: string)

  /** `str(s)[:6] + ".."` for texts longer than six characters. */
  function Shorten(s: string): (r: string)
    ensures |r| <= 8
    ensures |s| <= 6 ==> r == s
    ensures |s| > 6 ==> |r| == 8 && r[..6] == s[..6] && r[6..] == ".."
  {
    if |s| > 6 then s[..6] + ".." else s
  }

  /** readable_trim as written: its third branch tests for a list again, so
      a dict falls through to the text branch. */
  function ReadableTrimAsWritten(v: ArgValue): (r: string)
    ensures |r| <= 8
    ensures !v.DictArg? ==> r == ReadableTrim(v)
    ensures v.DictArg? ==> r == Shorten(v.text)
  {
    match v
    case ListArg => "[..]"
    case SetArg => "(..)"
    case DictArg(s) => Shorten(s)
    case OtherArg(s) => Shorten(s)
  }

  /** readable_trim as intended: a dict is shown as "{..}". */
  function ReadableTrim(v: ArgValue): (r: string)
    ensures |r| <= 8
    ensures v.ListArg? ==> r == "[..]"
    ensures v.SetArg? ==> r == "(..)"
    ensures v.DictArg? ==> r == "{..}"
    ensures v.OtherArg? ==> r == Shorten(v.text)
  {
    match v
    case ListArg => "[..]"
    case SetArg => "(..)"
    case DictArg(_) => "{..}"
    case OtherArg(s) => Shorten(s)
  }

  /** The readable form of a value, as written or as intended. */
  function Trimmed(v: ArgValue, fixed: bool): string
  {
    if fixed then ReadableTrim(v) else ReadableTrimAsWritten(v)
  }

  /** The dict marker "{..}" is never produced as written: a dict argument
      is shown as the head of its text instead, also in the signature. */
  lemma DictMarkerUnreachable()
    ensures ReadableTrimAsWritten(DictArg("{'a': 1}")) == "{'a': .."
    ensures ReadableTrimAsWritten(DictArg("{'a': 1}")) != ReadableTrim(DictArg("{'a': 1}"))
    ensures FuncSignature("f", [("x", DictArg("{'a': 1}"))]) == "f(x={'a': ..)"
    ensures FuncSignatureFixed("f", [("x", DictArg("{'a': 1}"))]) == "f(x={..})"
  {
    assert "{'a': 1}"[..6] == "{'a': ";
    var kw := [("x", DictArg("{'a': 1}"))];
    assert ArgText(kw[0], false) == "x={'a': ..";
    assert ArgTexts(kw, false) == ["x={'a': .."];
    assert ArgText(kw[0], true) == "x={..}";
    assert ArgTexts(kw, true) == ["x={..}"];
  }

  /** `k=v` for one keyword argument. */
  function ArgText(arg: (string, ArgValue), fixed: bool): string
  {
    arg.0 + "=" + Trimmed(arg.1, fixed)
  }

  function ArgTexts(kwargs: seq<(string, ArgValue)>, fixed: bool): (r: seq<string>)
    ensures |r| == |kwargs|
    ensures forall i :: 0 <= i < |kwargs| ==> r[i] == ArgText(kwargs[i], fixed)
  {
    if kwargs == [] then [] else [ArgText(kwargs[0], fixed)] + ArgTexts(kwargs[1..], fixed)
  }

  /** The function name, followed by `(k=v,...)` when there are keyword
      arguments. */
  function Signature(name: string, kwargs: seq<(string, ArgValue)>, fixed: bool): string
  {
    if kwargs == [] then name else name + "(" + Join(",", ArgTexts(kwargs, fixed)) + ")"
  }

  /** func_signature as written. */
  function FuncSignature(name: string, kwargs: seq<(string, ArgValue)>): (r: string)
    ensures kwargs == [] <==> r == name
    ensures kwargs != [] ==> |r| > |name| + 1 && r[..|name| + 1] == name + "(" && r[|r| - 1] == ')'
  {
    Signature(name, kwargs, false)
  }

  /** func_signature with the dict marker readable_trim intends. */
  function FuncSignatureFixed(name: string, kwargs: seq<(string, ArgValue)>): string
  {
    Signature(name, kwargs, true)
  }

  /** The two signatures differ only on dict arguments. */
  lemma SignaturesAgreeWithoutDicts(name: string, kwargs: seq<(string, ArgValue)>)
    requires forall i :: 0 <= i < |kwargs| ==> !kwargs[i].1.DictArg?
    ensures FuncSignature(name, kwargs) == FuncSignatureFixed(name, kwargs)
  {
    assert ArgTexts(kwargs, false) == ArgTexts(kwargs, true);
  }

  /** func_signature reads back: without keyword arguments it is the bare
      name; otherwise the name, "(", the arguments and ")", where the
      arguments are `k=v` with each value at most eight characters, in order,
      and split at the commas into exactly those texts when no key or value
      holds a comma. */
  lemma {:induction false} FuncSignatureShape(name: string, kwargs: seq<(string, ArgValue)>, fixed: bool) returns (inner: string)
    ensures kwargs == [] ==> Signature(name, kwargs, fixed) == name
    ensures kwargs != [] ==> Signature(name, kwargs, fixed) == name + "(" + inner + ")"
    ensures forall i :: 0 <= i < |kwargs| ==> |Trimmed(kwargs[i].1, fixed)| <= 8
    ensures kwargs != [] && (forall i :: 0 <= i < |kwargs| ==> ',' !in ArgText(kwargs[i], fixed)) ==>
      Split(inner, ',') == seq(|kwargs|, i requires 0 <= i < |kwargs| => kwargs[i].0 + "=" + Trimmed(kwargs[i].1, fixed))
  {
    var parts := ArgTexts(kwargs, fixed);
    inner := Join(",", parts);
    if kwargs != [] && (forall i :: 0 <= i < |kwargs| ==> ',' !in ArgText(kwargs[i], fixed)) {
      SplitJoin(parts, ',');
      assert parts == seq(|kwargs|, i requires 0 <= i < |kwargs| => kwargs[i].0 + "=" + Trimmed(kwargs[i].1, fixed));
    }
  }
}
