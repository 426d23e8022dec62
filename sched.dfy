/** The scheduler's fluent builder and job registry
    (flask_production/sched.py): `every`/`at`/`strict_date`/`timezone` fill in
    the builder fields, `do` picks a job class for the interval, gives the job
    the next free id and resets the builder, `check` runs the due jobs of a
    snapshot of the list, and `get_job_by_id`/`rerun` look jobs up. */
module Scheduler {
  import opened Wrappers
  import opened Text
  import opened Calendar
  import opened Jobs

  /** A class registered with register_external_job_class: its name, whether
      it subclasses Job, and its is_valid_interval. */
  datatype ExternalClass = ExternalClass(name: string, isJobSubclass: bool, accepts: Interval -> bool)

  /** The class a new job is created with. */
  datatype JobClass = External(index: nat) | RepeatJob | OneTimeJob | MonthlyJob | PlainJob | NeverJob

  /** A registered job: its id, class and definition. */
  datatype JobEntry = JobEntry(jobid: nat, cls: JobClass, interval: Interval, at: Option<string>,
                               calendar: set<Date>, tzname: string, strict: Option<bool>)

  /** What the scheduler asks of a job at `check` and `rerun` time: the
      outcome of its is_due and its is_running flag. */
  datatype JobStatus = JobStatus(due: Result<bool>, running: bool)

  const IntervalMissing := "Use .at()/.every().at() before .do()"
  const StrictDateMisuse := ".strict_date(bool) only used for monthly schedule. ex: .every('31st').strict_date(True).."
  const StrictDateMissing := "call to .strict_date() required for monthly schedule. ex: .every('31st').strict_date(True).."
  const NotAJobClass := "class must be inherited from 'Job' class"
  const InvalidJobId := "Invalid job id"
  const RerunWhileRunning := "Cannot rerun a running task"

  /** The index of the first external class whose validator accepts `i`. */
  function FirstAccepting(externals: seq<ExternalClass>, i: Interval): (r: Option<nat>)
    ensures r.Some? ==> r.value < |externals| && externals[r.value].accepts(i)
    ensures r.Some? ==> forall k :: 0 <= k < r.value ==> !externals[k].accepts(i)
    ensures r.None? ==> forall k :: 0 <= k < |externals| ==> !externals[k].accepts(i)
  {
    FirstAcceptingFrom(externals, i, 0)
  }

  /** The job class chosen for an interval: the first external class that
      accepts it, then RepeatJob, OneTimeJob, MonthlyJob, Job and NeverJob in
      that order; None when no class accepts it. NeverJob's validator is
      given as `neverAccepts`. */
  function SelectClass(externals: seq<ExternalClass>, i: Interval, neverAccepts: bool): (r: Option<JobClass>)
    ensures FirstAccepting(externals, i).Some? ==> r == Some(External(FirstAccepting(externals, i).value))
    ensures r.Some? && r.value.External? ==> r.value.index < |externals| && externals[r.value.index].accepts(i)
    ensures r.Some? && !r.value.External? ==> forall k :: 0 <= k < |externals| ==> !externals[k].accepts(i)
    ensures r.None? ==> !neverAccepts && !IsValidRepeatInterval(i) && !IsValidOneTimeInterval(i)
                        && !IsValidMonthlyIntervalFixed(i) && !IsValidDayRule(i)
  {
    var ext := FirstAccepting(externals, i);
    if ext.Some? then Some(External(ext.value))
    else if IsValidRepeatInterval(i) then Some(RepeatJob)
    else if IsValidOneTimeInterval(i) then Some(OneTimeJob)
    else if IsValidMonthlyIntervalFixed(i) then Some(MonthlyJob)
    else if IsValidDayRule(i) then Some(PlainJob)
    else if neverAccepts then Some(NeverJob)
    else None
  }

  /** The first piece of a split starts with the string's first character
      when that is not the separator. */
  lemma SplitHead(s: string, sep: char)
    requires s != [] && s[0] != sep
    ensures Split(s, sep)[0] != [] && Split(s, sep)[0][0] == s[0]
  {
  }

  /** The validators of the four built-in classes accept disjoint sets of
      intervals, so their order in the selection only decides between them
      and NeverJob. */
  lemma BuiltinValidatorsDisjoint(i: Interval)
    ensures IsValidRepeatInterval(i) ==> !IsValidOneTimeInterval(i) && !IsValidMonthlyIntervalFixed(i) && !IsValidDayRule(i)
    ensures IsValidOneTimeInterval(i) ==> !IsValidMonthlyIntervalFixed(i) && !IsValidDayRule(i)
    ensures IsValidMonthlyIntervalFixed(i) ==> !IsValidDayRule(i)
  {
    if IsValidMonthlyIntervalFixed(i) {
      MonthlyExcludesOthers(i);
    }
    if IsValidDayRule(i) {
      assert i.s[0] != '-' && !IsDigit(i.s[0]);
      SplitHead(i.s, '-');
    }
  }

  /** With no external class accepting it, an interval accepted by one of
      the built-in validators gets exactly that class. */
  lemma SelectBuiltin(externals: seq<ExternalClass>, i: Interval, neverAccepts: bool)
    requires forall k :: 0 <= k < |externals| ==> !externals[k].accepts(i)
    ensures IsValidRepeatInterval(i) <==> SelectClass(externals, i, neverAccepts) == Some(RepeatJob)
    ensures IsValidOneTimeInterval(i) <==> SelectClass(externals, i, neverAccepts) == Some(OneTimeJob)
    ensures IsValidMonthlyIntervalFixed(i) <==> SelectClass(externals, i, neverAccepts) == Some(MonthlyJob)
    ensures IsValidDayRule(i) <==> SelectClass(externals, i, neverAccepts) == Some(PlainJob)
  {
    BuiltinValidatorsDisjoint(i);
  }

  /** `"%H:%M"` of a clock time. */
  function ClockText(c: Clock): (r: string)
    requires ValidClock(c)
    ensures |r| == 5 && r[2] == ':'
  {
    NatToStringShort(c.hour);
    NatToStringShort(c.minute);
    var h, m := ZeroPad(NatToString(c.hour), 2), ZeroPad(NatToString(c.minute), 2);
    assert |h| == 2 && |m| == 2;
    assert (h + ":" + m)[2] == ':';
    h + ":" + m
  }

  /** _create_job succeeds: an interval is set, some class accepts it,
      a MonthlyJob has its strictness and a RepeatJob a positive interval. */
  predicate Creatable(externals: seq<ExternalClass>, interval: Option<Interval>, strictMonthly: Option<bool>,
                      neverAccepts: bool)
  {
    && interval.Some?
    && var cls := SelectClass(externals, interval.value, neverAccepts);
       && cls.Some?
       && (cls.value == MonthlyJob ==> strictMonthly.Some?)
       && (cls.value == RepeatJob ==> interval.value.Seconds? && interval.value.n > 0)
  }

  /** With no external class accepting it, an interval makes a job when it
      is a positive number of seconds, a date, or a day rule; a monthly
      interval only with its strictness given; anything else only when
      NeverJob accepts it. */
  lemma CreatableBuiltin(externals: seq<ExternalClass>, i: Interval, strict: Option<bool>, neverAccepts: bool)
    requires forall k :: 0 <= k < |externals| ==> !externals[k].accepts(i)
    ensures IsValidRepeatInterval(i) ==> (Creatable(externals, Some(i), strict, neverAccepts) <==> i.n > 0)
    ensures IsValidOneTimeInterval(i) || IsValidDayRule(i) ==> Creatable(externals, Some(i), strict, neverAccepts)
    ensures IsValidMonthlyIntervalFixed(i) ==> (Creatable(externals, Some(i), strict, neverAccepts) <==> strict.Some?)
    ensures !IsValidRepeatInterval(i) && !IsValidOneTimeInterval(i) && !IsValidMonthlyIntervalFixed(i)
            && !IsValidDayRule(i)
            ==> (Creatable(externals, Some(i), strict, neverAccepts) <==> neverAccepts)
  {
    SelectBuiltin(externals, i, neverAccepts);
    BuiltinValidatorsDisjoint(i);
  }

  /** The scheduler: the builder fields of the job being defined, the
      default timezone and holiday calendar, the external classes and the
      registered jobs. */
  class TaskScheduler {
    var interval: Option<Interval>
    var tempTime: Option<string>
    var tzname: string
    var strictMonthly: Option<bool>
    var jobCalendar: Option<set<Date>>
    const tzDefault: string
    const holidays: set<Date>
    var externals: seq<ExternalClass>
    var jobs: seq<JobEntry>

    /** Every job's id is its position in the list. */
    predicate Valid()
      reads this
    {
      forall k :: 0 <= k < |jobs| ==> jobs[k].jobid == k
    }

    /** A fresh scheduler: no jobs, no external classes, builder reset. */
    constructor (tzDefault: string, holidays: set<Date>)
      ensures this.tzDefault == tzDefault && this.holidays == holidays
      ensures jobs == [] && externals == [] && Valid()
      ensures interval == None && tempTime == None && tzname == tzDefault
      ensures strictMonthly == None && jobCalendar == None
    {
      this.tzDefault := tzDefault;
      this.holidays := holidays;
      externals := [];
      jobs := [];
      interval := None;
      tempTime := None;
      tzname := tzDefault;
      strictMonthly := None;
      jobCalendar := None;
    }

    /** __reset_defaults */
    method ResetDefaults()
      modifies this
      ensures interval == None && tempTime == None && tzname == tzDefault
      ensures strictMonthly == None && jobCalendar == None
      ensures jobs == old(jobs) && externals == old(externals)
    {
      interval := None;
      tempTime := None;
      tzname := tzDefault;
      strictMonthly := None;
      jobCalendar := None;
    }

    /** register_external_job_class: ValueError for a class that does not
      subclass Job, the list unchanged; otherwise appended. */
    method RegisterExternalJobClass(c: ExternalClass) returns (error: Option<string>)
      modifies this`externals
      ensures !c.isJobSubclass ==> error == Some(NotAJobClass) && externals == old(externals)
      ensures c.isJobSubclass ==> error == None && externals == old(externals) + [c]
    {
      if !c.isJobSubclass {
        error := Some(NotAJobClass);
      } else {
        externals := externals + [c];
        error := None;
      }
    }

    /** every(interval, calendar) */
    method Every(i: Interval, calendar: Option<set<Date>>)
      modifies this`interval, this`jobCalendar
      ensures interval == Some(i) && jobCalendar == calendar
    {
      interval := Some(i);
      jobCalendar := calendar;
    }

    /** at(time_string): a job given only a time runs every day. */
    method At(time: string)
      modifies this`interval, this`jobCalendar, this`tempTime
      ensures tempTime == Some(time)
      ensures old(interval).None? ==> interval == Some(Text("day")) && jobCalendar == None
      ensures old(interval).Some? ==> interval == old(interval) && jobCalendar == old(jobCalendar)
    {
      if interval.None? {
        Every(Text("day"), None);
      }
      tempTime := Some(time);
    }

    /** strict_date(strict): BadScheduleError unless the interval is a
      monthly one and the argument a bool (None stands for any argument
      that is not a bool). */
    method StrictDate(strict: Option<bool>) returns (error: Option<string>)
      modifies this`strictMonthly
      ensures var ok := interval.Some? && IsValidMonthlyIntervalFixed(interval.value) && strict.Some?;
        (ok ==> error == None && strictMonthly == strict)
        && (!ok ==> error == Some(StrictDateMisuse) && strictMonthly == old(strictMonthly))
    {
      if interval.None? || !IsValidMonthlyIntervalFixed(interval.value) || strict.None? {
        error := Some(StrictDateMisuse);
      } else {
        strictMonthly := strict;
        error := None;
      }
    }

    /** timezone(name): BadScheduleError for a name the timezone database
      does not know (`known`). */
    method Timezone(name: string, known: bool) returns (error: Option<string>)
      modifies this`tzname
      ensures known ==> error == None && tzname == name
      ensures !known ==> error == Some("unknown timezone '" + name + "'") && tzname == old(tzname)
    {
      if !known {
        error := Some("unknown timezone '" + name + "'");
      } else {
        tzname := name;
        error := None;
      }
    }

    /** The loop over the external classes in _create_job. */
    method FindExternal(i: Interval) returns (r: Option<nat>)
      ensures r == FirstAccepting(externals, i)
    {
      var k := 0;
      while k < |externals|
        invariant 0 <= k <= |externals|
        invariant FirstAccepting(externals, i) == FirstAcceptingFrom(externals, i, k)
        decreases |externals| - k
      {
        if externals[k].accepts(i) {
          return Some(k);
        }
        k := k + 1;
      }
      return None;
    }

    /** The class _create_job picks: the first external class accepting
      the interval, then the built-in validators in order, then the
      never-run class when it is wanted. */
    method ChooseClass(i: Interval, neverAccepts: bool) returns (cls: Option<JobClass>)
      ensures cls == SelectClass(externals, i, neverAccepts)
    {
      var ext := FindExternal(i);
      if ext.Some? {
        cls := Some(External(ext.value));
      } else if IsValidRepeatInterval(i) {
        cls := Some(RepeatJob);
      } else if IsValidOneTimeInterval(i) {
        cls := Some(OneTimeJob);
      } else if IsValidMonthlyIntervalFixed(i) {
        cls := Some(MonthlyJob);
      } else if IsValidDayRule(i) {
        cls := Some(PlainJob);
      } else if neverAccepts {
        cls := Some(NeverJob);
      } else {
        cls := None;
      }
    }

    /** _create_job: the new job, or the exception raised with the builder
      left as it was. On success the builder is reset. */
    method CreateJob(now: Clock, neverAccepts: bool) returns (r: Result<JobEntry>)
      requires ValidClock(now)
      modifies this
      ensures jobs == old(jobs) && externals == old(externals)
      ensures old(interval).None? ==> r == Err(IntervalMissing) && tempTime == old(tempTime)
      ensures old(interval).Some? ==> tempTime == Some(if old(tempTime).Some? then old(tempTime).value else ClockText(now))
                                      || (r.Ok? && tempTime == None)
      ensures r.Err? ==> interval == old(interval) && tzname == old(tzname)
                         && strictMonthly == old(strictMonthly) && jobCalendar == old(jobCalendar)
      ensures r.Ok? ==> CreatedAs(r.value, |old(jobs)|, old(interval), old(tempTime), old(tzname),
                                  old(strictMonthly), old(jobCalendar), now, neverAccepts)
      ensures r.Ok? ==> interval == None && tempTime == None && tzname == tzDefault
                        && strictMonthly == None && jobCalendar == None
      ensures old(interval).Some? && SelectClass(externals, old(interval).value, neverAccepts).None?
              ==> r == Err(IntervalString(old(interval).value) + " is not valid\n")
      ensures old(interval).Some? && SelectClass(externals, old(interval).value, neverAccepts) == Some(MonthlyJob)
              && old(strictMonthly).None?
              ==> r == Err(StrictDateMissing)
      ensures old(interval).Some? && SelectClass(externals, old(interval).value, neverAccepts) == Some(RepeatJob)
              && old(interval).value.Seconds? && old(interval).value.n <= 0
              ==> r == Err(IllegalRepeatInterval)
      ensures r.Ok? <==> Creatable(externals, old(interval), old(strictMonthly), neverAccepts)
    {
      if interval.None? {
        return Err(IntervalMissing);
      }
      var i := interval.value;
      if tempTime.None? {
        tempTime := Some(ClockText(now));
      }
      var time := tempTime.value;
      var cls := ChooseClass(i, neverAccepts);
      ghost var ok := Creatable(externals, interval, strictMonthly, neverAccepts);
      assert ok <==> cls.Some? && (cls.value == MonthlyJob ==> strictMonthly.Some?)
                     && (cls.value == RepeatJob ==> i.Seconds? && i.n > 0);
      if cls == Some(MonthlyJob) && strictMonthly.None? {
        return Err(StrictDateMissing);
      }
      if cls.None? {
        return Err(IntervalString(i) + " is not valid\n");
      }
      if cls.value == RepeatJob && i.n <= 0 {
        return Err(IllegalRepeatInterval);
      }
      var at := if cls.value == RepeatJob || cls.value == NeverJob then None else Some(time);
      var calendar := if jobCalendar.None? then holidays else jobCalendar.value;
      var strict := if cls.value == MonthlyJob then strictMonthly else None;
      var entry := JobEntry(|jobs|, cls.value, i, at, calendar, tzname, strict);
      assert CreatedAs(entry, |old(jobs)|, old(interval), old(tempTime), old(tzname),
                       old(strictMonthly), old(jobCalendar), now, neverAccepts);
      ResetDefaults();
      return Ok(entry);
    }

    /** do(func): creates the job and appends it; its id is its position. */
    method Do(now: Clock, neverAccepts: bool) returns (r: Result<JobEntry>)
      requires Valid() && ValidClock(now)
      modifies this
      ensures Valid()
      ensures r.Ok? ==> jobs == old(jobs) + [r.value] && r.value.jobid == |old(jobs)|
      ensures r.Err? ==> jobs == old(jobs)
      ensures externals == old(externals)
      ensures r.Ok? ==> interval == None && tempTime == None && tzname == tzDefault
                        && strictMonthly == None && jobCalendar == None
      ensures r.Err? ==> interval == old(interval) && tzname == old(tzname)
                         && strictMonthly == old(strictMonthly) && jobCalendar == old(jobCalendar)
      ensures old(interval).None? ==> tempTime == old(tempTime)
      ensures r.Ok? <==> Creatable(externals, old(interval), old(strictMonthly), neverAccepts)
      ensures r.Ok? ==> CreatedAs(r.value, |old(jobs)|, old(interval), old(tempTime), old(tzname),
                                  old(strictMonthly), old(jobCalendar), now, neverAccepts)
    {
      r := CreateJob(now, neverAccepts);
      if r.Ok? {
        jobs := jobs + [r.value];
      }
    }

    /** The job `entry` is the one _create_job builds from these builder
      fields: the next id, the selected class, the given or current time
      (none for RepeatJob and NeverJob), the job's own calendar or the
      scheduler's, the timezone, and the strictness for MonthlyJob. */
    ghost predicate CreatedAs(entry: JobEntry, jobid: nat, interval: Option<Interval>, tempTime: Option<string>, tzname: string,
                              strictMonthly: Option<bool>, jobCalendar: Option<set<Date>>, now: Clock, neverAccepts: bool)
      requires ValidClock(now)
      reads this
    {
      && interval.Some?
      && entry.jobid == jobid
      && SelectClass(externals, interval.value, neverAccepts) == Some(entry.cls)
      && entry.interval == interval.value
      && (entry.cls == MonthlyJob ==> strictMonthly.Some? && entry.strict == strictMonthly)
      && (entry.cls != MonthlyJob ==> entry.strict == None)
      && (entry.cls == RepeatJob ==> interval.value.n > 0)
      && entry.at == (if entry.cls == RepeatJob || entry.cls == NeverJob then None
                      else Some(if tempTime.Some? then tempTime.value else ClockText(now)))
      && entry.calendar == (if jobCalendar.Some? then jobCalendar.value else holidays)
      && entry.tzname == tzname
    }

    /** get_job_by_id: the first job with that id, or None. */
    method GetJobById(jobid: int) returns (r: Option<JobEntry>)
      ensures r == FirstWithId(jobs, jobid)
    {
      var k := 0;
      while k < |jobs|
        invariant 0 <= k <= |jobs|
        invariant FirstWithId(jobs, jobid) == FirstWithId(jobs[k..], jobid)
        decreases |jobs| - k
      {
        assert jobs[k..] == [jobs[k]] + jobs[k + 1..];
        if jobs[k].jobid == jobid {
          return Some(jobs[k]);
        }
        k := k + 1;
      }
      return None;
    }

    /** check(): walks a snapshot of the job list and runs, in order, each
      job that is due and not running. A one-time job that has expired makes
      is_due raise, which stops the walk with that exception. The result is
      the positions of the jobs run. */
    method Check(statuses: seq<JobStatus>) returns (ran: seq<nat>, error: Option<string>)
      requires |statuses| == |jobs|
      ensures (ran, error) == CheckOutcome(statuses)
    {
      var snapshot := jobs;
      ran := [];
      var k := 0;
      assert CheckOutcome(statuses).0 == ran + CheckFrom(statuses, 0).0;
      while k < |snapshot|
        invariant 0 <= k <= |snapshot|
        invariant CheckOutcome(statuses).0 == ran + CheckFrom(statuses, k).0
        invariant CheckOutcome(statuses).1 == CheckFrom(statuses, k).1
        decreases |snapshot| - k
      {
        var s := statuses[k];
        if s.due.Err? {
          assert ran + CheckFrom(statuses, k).0 == ran;
          return ran, Some(s.due.error);
        }
        if s.due.value && !s.running {
          assert CheckFrom(statuses, k).0 == [k] + CheckFrom(statuses, k + 1).0;
          ran := ran + [k];
        }
        k := k + 1;
      }
      assert ran + CheckFrom(statuses, k).0 == ran;
      return ran, None;
    }

    /** rerun(jobid) up to the run itself: IndexError for an unknown id,
      RuntimeError for a running job, otherwise the job to run again. */
    method Rerun(jobid: int, statuses: seq<JobStatus>) returns (r: Result<JobEntry>)
      requires |statuses| == |jobs| && Valid()
      ensures r.Err? <==> !(0 <= jobid < |jobs|) || statuses[jobid].running
      ensures !(0 <= jobid < |jobs|) ==> r == Err(InvalidJobId)
      ensures 0 <= jobid < |jobs| && statuses[jobid].running ==> r == Err(RerunWhileRunning)
      ensures r.Ok? ==> r.value == jobs[jobid]
    {
      var found := GetJobById(jobid);
      LookupById(jobs, jobid);
      if found.None? {
        return Err(InvalidJobId);
      }
      if statuses[jobid].running {
        return Err(RerunWhileRunning);
      }
      return Ok(found.value);
    }
  }

  /** The first class from position `k` on whose validator accepts `i`. */
  function FirstAcceptingFrom(externals: seq<ExternalClass>, i: Interval, k: nat): (r: Option<nat>)
    requires k <= |externals|
    ensures r.Some? ==> k <= r.value < |externals| && externals[r.value].accepts(i)
    ensures r.Some? ==> forall j :: k <= j < r.value ==> !externals[j].accepts(i)
    ensures r.None? ==> forall j :: k <= j < |externals| ==> !externals[j].accepts(i)
    decreases |externals| - k
  {
    if k == |externals| then None
    else if externals[k].accepts(i) then Some(k)
    else FirstAcceptingFrom(externals, i, k + 1)
  }

  /** The first job in `js` with the id, or None. */
  function FirstWithId(js: seq<JobEntry>, jobid: int): (r: Option<JobEntry>)
    ensures r.Some? ==> r.value in js && r.value.jobid == jobid
    ensures r.None? ==> forall k :: 0 <= k < |js| ==> js[k].jobid != jobid
  {
    if js == [] then None
    else if js[0].jobid == jobid then Some(js[0])
    else FirstWithId(js[1..], jobid)
  }

  /** In a list whose ids are the positions, the lookup by id finds the job
      at that position, and nothing for any other number. */
  lemma {:induction false} LookupById(js: seq<JobEntry>, jobid: int)
    requires forall k :: 0 <= k < |js| ==> js[k].jobid == k
    ensures 0 <= jobid < |js| ==> FirstWithId(js, jobid) == Some(js[jobid])
    ensures !(0 <= jobid < |js|) ==> FirstWithId(js, jobid) == None
  {
    if 0 <= jobid < |js| {
      var k := 0;
      while k < jobid
        invariant 0 <= k <= jobid
        invariant FirstWithId(js, jobid) == FirstWithId(js[k..], jobid)
      {
        assert js[k..][1..] == js[k + 1..];
        k := k + 1;
      }
      assert js[jobid..][0] == js[jobid];
    }
  }

  /** The runs and the outcome of check() from position `k` of the snapshot on. */
  function CheckFrom(statuses: seq<JobStatus>, k: nat): (seq<nat>, Option<string>)
    requires k <= |statuses|
    decreases |statuses| - k
  {
    if k == |statuses| then ([], None)
    else if statuses[k].due.Err? then ([], Some(statuses[k].due.error))
    else
      var rest := CheckFrom(statuses, k + 1);
      if statuses[k].due.value && !statuses[k].running then ([k] + rest.0, rest.1) else rest
  }

  /** The outcome of check() on a snapshot whose jobs report `statuses`. */
  function CheckOutcome(statuses: seq<JobStatus>): (seq<nat>, Option<string>)
  {
    CheckFrom(statuses, 0)
  }

  /** check() runs exactly the jobs that are due and not running, in list
      order, up to the first expired one-time job, whose exception it
      passes on; with no expired job it reaches the end of the list. */
  lemma {:induction false} CheckFromSpec(statuses: seq<JobStatus>, k: nat)
    requires k <= |statuses|
    ensures forall x :: x in CheckFrom(statuses, k).0 <==>
      (k <= x < |statuses| && statuses[x].due == Ok(true) && !statuses[x].running
       && forall y :: k <= y < x ==> statuses[y].due.Ok?)
    ensures forall a, b :: 0 <= a < b < |CheckFrom(statuses, k).0| ==> CheckFrom(statuses, k).0[a] < CheckFrom(statuses, k).0[b]
    ensures forall x :: x in CheckFrom(statuses, k).0 ==> k <= x
    ensures CheckFrom(statuses, k).1.None? <==> forall y :: k <= y < |statuses| ==> statuses[y].due.Ok?
    decreases |statuses| - k
  {
    if k < |statuses| && statuses[k].due.Ok? {
      CheckFromSpec(statuses, k + 1);
      var rest := CheckFrom(statuses, k + 1).0;
      if statuses[k].due.value && !statuses[k].running {
        assert CheckFrom(statuses, k).0 == [k] + rest;
        forall x ensures x in [k] + rest <==> x == k || x in rest { }
        forall a, b | 0 <= a < b < |[k] + rest| ensures ([k] + rest)[a] < ([k] + rest)[b] {
          assert ([k] + rest)[b] == rest[b - 1] && rest[b - 1] in rest;
          if a > 0 {
            assert ([k] + rest)[a] == rest[a - 1];
          }
        }
      } else {
        assert CheckFrom(statuses, k).0 == rest;
      }
    }
  }
}
