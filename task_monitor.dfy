/** The server side of the task monitor (flask_production/plugins/task_monitor.py):
    the state of a job as the pages show it, the duration and schedule texts,
    the description cell, the source line an error points at, the summary
    counters, the NEXT_RUN value written into the job page, and the checks of
    the two POST endpoints. Times are timestamps in whole seconds. */
module TaskMonitor {
  import opened Wrappers
  import opened Text
  import Jobs
  import opened Browser

  /** The fields of Job.to_dict that the monitor reads. */
  datatype JobInfo = JobInfo(
    jobid: int,
    isDisabled: bool,
    isRunning: bool,
    log: string,
    err: string,
    start: Option<int>,
    end: Option<int>,
    nextRun: Option<int>,
    src: string,
    signature: string)

  datatype StateKind = Ready | Running | Error | Success | Disabled

  /** The dict built by __state. */
  datatype State = State(state: StateKind, css: string, title: string)

  function StateCss(k: StateKind): string
  {
    match k
    case Ready => "grey"
    case Running => "yellow"
    case Error => "red"
    case Success => "green"
    case Disabled => "blue"
  }

  /** __state: disabled wins over everything; then running; then a
      non-blank traceback, titled with its last line; then a finished run
      that printed something; otherwise ready. (`s.strip() != ''` is
      `!AllSpace(s)`, by StripSpec.) */
  function JobState(j: JobInfo): (r: State)
    ensures r.state == Disabled <==> j.isDisabled
    ensures r.state == Running <==> !j.isDisabled && j.isRunning
    ensures r.state == Error <==> !j.isDisabled && !j.isRunning && !AllSpace(j.err)
    ensures r.state == Success <==> !j.isDisabled && !j.isRunning && AllSpace(j.err) && j.end.Some? && !AllSpace(j.log)
    ensures r.css == StateCss(r.state)
    ensures r.state != Error ==> r.title == ""
  {
    if j.isDisabled then State(Disabled, "blue", "")
    else if j.isRunning then State(Running, "yellow", "")
    else if !AllSpace(j.err) then State(Error, "red", Last(Split(Strip(j.err), '\n')))
    else if j.end.Some? && !AllSpace(j.log) then State(Success, "green", "")
    else State(Ready, "grey", "")
  }

  /** The title of an ERROR state is the last line of the traceback: it is
      never empty, holds no line break, and is what follows the last line
      break of the stripped traceback (or all of it when there is none). */
  lemma ErrorTitle(j: JobInfo) returns (k: nat)
    requires JobState(j).state == Error
    ensures JobState(j).title != "" && '\n' !in JobState(j).title
    ensures k < |Strip(j.err)| && JobState(j).title == Strip(j.err)[k..]
    ensures k == 0 || Strip(j.err)[k - 1] == '\n'
  {
    var t := Strip(j.err);
    StripSpec(j.err);
    k := LastPart(t, '\n');
    if k == |t| {
      assert IsSpace(t[k - 1]);
      assert false;
    }
  }

  /** timedelta.seconds of `end - start`: whole days are dropped. */
  function DeltaSeconds(start: int, end: int): (r: nat)
    ensures r < 86400
  {
    (end - start) % 86400
  }

  /** The text of a duration: "m:ss minutes" from a minute on (the seconds
      zero-filled to two digits when `zeroFill`, as in the newer monitor),
      "1 second", or "n seconds". */
  function DurationText(seconds: nat, zeroFill: bool): (r: string)
    ensures seconds >= 60 ==> |r| > 8 && r[|r| - 8..] == " minutes"
    ensures seconds == 1 <==> r == "1 second"
    ensures seconds < 60 && seconds != 1 ==> |r| > 8 && r[|r| - 8..] == " seconds"
  {
    if seconds >= 60 then
      NatToString(seconds / 60) + ":"
        + (if zeroFill then ZeroPad(NatToString(seconds % 60), 2) else NatToString(seconds % 60))
        + " minutes"
    else if seconds == 1 then "1 second"
    else NatToString(seconds) + " seconds"
  }

  /** __duration: no text unless the run has both a start and an end. */
  function Duration(start: Option<int>, end: Option<int>): (r: Option<string>)
    ensures r.Some? <==> start.Some? && end.Some?
    ensures r.Some? ==> ReadDuration(r.value) == Some(DeltaSeconds(start.value, end.value))
    ensures r.Some? && DeltaSeconds(start.value, end.value) >= 60 ==>
      var d := DeltaSeconds(start.value, end.value);
      r.value == NatToString(d / 60) + ":" + ZeroPad(NatToString(d % 60), 2) + " minutes"
    ensures r.Some? && DeltaSeconds(start.value, end.value) == 1 ==> r.value == "1 second"
    ensures r.Some? && DeltaSeconds(start.value, end.value) < 60 && DeltaSeconds(start.value, end.value) != 1 ==>
      r.value == NatToString(DeltaSeconds(start.value, end.value)) + " seconds"
  {
    if start.Some? && end.Some? then
      DurationRoundTrip(DeltaSeconds(start.value, end.value), true);
      Some(DurationText(DeltaSeconds(start.value, end.value), true))
    else None
  }

  predicate Digits(s: string)
  {
    |s| >= 1 && forall k :: 0 <= k < |s| ==> IsDigit(s[k])
  }

  /** Reference reader for duration texts: the number of seconds a text
      stands for, in either monitor's format. */
  function ReadDuration(t: string): Option<nat>
  {
    if |t| > 8 && t[|t| - 8..] == " minutes" then ReadMinSec(Split(t[..|t| - 8], ':'))
    else if t == "1 second" then Some(1)
    else if |t| > 8 && t[|t| - 8..] == " seconds" && Digits(t[..|t| - 8]) then Some(ParseDigits(t[..|t| - 8]))
    else None
  }

  /** "m:ss": minutes and seconds, both decimal digits. */
  function ReadMinSec(parts: seq<string>): Option<nat>
  {
    if |parts| == 2 && Digits(parts[0]) && Digits(parts[1])
    then Some(MinutesSeconds(ParseDigits(parts[0]), ParseDigits(parts[1])))
    else None
  }

  function MinutesSeconds(m: nat, s: nat): nat
  {
    60 * m + s
  }

  /** Every duration text reads back as the duration it was made from. */
  lemma DurationRoundTrip(seconds: nat, zeroFill: bool)
    ensures ReadDuration(DurationText(seconds, zeroFill)) == Some(seconds)
  {
    if seconds >= 60 {
      var m := NatToString(seconds / 60);
      var ss := if zeroFill then ZeroPad(NatToString(seconds % 60), 2) else NatToString(seconds % 60);
      assert Digits(m) && ParseDigits(m) == seconds / 60 by { ParseNatToString(seconds / 60); }
      assert Digits(ss) && ParseDigits(ss) == seconds % 60 by {
        ParseNatToString(seconds % 60);
        ParseZeroPad(seconds % 60, 2);
      }
      ReadMinutes(m, ss);
      assert DurationText(seconds, zeroFill) == m + ":" + ss + " minutes";
      assert MinutesSeconds(seconds / 60, seconds % 60) == seconds;
    } else if seconds != 1 {
      ParseNatToString(seconds);
      ReadSeconds(NatToString(seconds));
    }
  }

  lemma ReadMinutes(m: string, ss: string)
    requires Digits(m) && Digits(ss)
    ensures ReadDuration(m + ":" + ss + " minutes") == Some(MinutesSeconds(ParseDigits(m), ParseDigits(ss)))
  {
    var t := m + ":" + ss + " minutes";
    var body := m + [':'] + ss;
    assert t == body + " minutes";
    assert t[|t| - 8..] == " minutes" && t[..|t| - 8] == body;
    assert ':' !in m by { assert !IsDigit(':'); }
    assert ':' !in ss by { assert !IsDigit(':'); }
    SplitPrefix(m, ':', ss);
    var parts := [m, ss];
    assert ReadDuration(t) == ReadMinSec(parts);
    assert parts[0] == m && parts[1] == ss;
  }

  lemma ReadSeconds(n: string)
    requires Digits(n)
    ensures ReadDuration(n + " seconds") == Some(ParseDigits(n))
  {
    var t := n + " seconds";
    assert t[|t| - 8..] == " seconds";
    assert t[..|t| - 8] == n;
  }

  /** The two monitors write the same duration text exactly when the seconds
      part has two digits already: 65 seconds is "1:05 minutes" in the newer
      one and "1:5 minutes" in the older. */
  lemma PaddingDiffers(seconds: nat)
    requires seconds >= 60
    ensures DurationText(seconds, true) == DurationText(seconds, false) <==> seconds % 60 >= 10
  {
    NatToStringShort(seconds % 60);
    var a, b := DurationText(seconds, true), DurationText(seconds, false);
    var m := NatToString(seconds / 60);
    if seconds % 60 < 10 {
      assert |a| == |m| + 1 + 2 + 8 && |b| == |m| + 1 + 1 + 8;
    }
  }

  /** A cell's text and, when it has one, its title attribute. */
  datatype Cell = Cell(content: string, title: Option<string>)

  /** __descrTD: no description shows "-"; otherwise the stripped text,
      cut to its first 30 characters and "..." when longer, with the whole
      stripped text as the title. */
  function DescrCell(d: Option<string>): (r: Cell)
    ensures d.None? ==> r == Cell("-", None)
    ensures d.Some? ==> r.title == Some(Strip(d.value)) && |r.content| <= 33
    ensures d.Some? && |Strip(d.value)| <= 30 ==> r.content == Strip(d.value)
    ensures d.Some? && |Strip(d.value)| > 30 ==>
      |r.content| == 33 && r.content[..30] == Strip(d.value)[..30] && r.content[30..] == "..."
  {
    if d.None? then Cell("-", None)
    else
      var t := Strip(d.value);
      Cell(if |t| > 30 then t[..30] + "..." else t, Some(t))
  }

  /** The `at` of a job: one time of day or a list of them. */
  datatype At = AtText(s: string) | AtList(items: seq<string>)

  /** "{}".format(at): a list is shown as Python shows it. */
  function AtString(at: At): string
  {
    match at
    case AtText(s) => s
    case AtList(items) => "[" + Join(", ", QuotedAll(items)) + "]"
  }

  function QuotedAll(items: seq<string>): (r: seq<string>)
    ensures |r| == |items|
  {
    if items == [] then [] else ["'" + items[0] + "'"] + QuotedAll(items[1..])
  }

  /** The shortened list of times: the first three, ", ..." and the last. */
  function ShortTimes(xs: seq<string>): (r: string)
    requires |xs| >= 5
    ensures r == xs[0] + ", " + xs[1] + ", " + xs[2] + ", ..." + xs[|xs| - 1]
  {
    var three := xs[..3];
    assert three[1..] == [xs[1], xs[2]] && three[1..][1..] == [xs[2]];
    assert Join(", ", three[1..]) == xs[1] + ", " + xs[2];
    assert Join(", ", three) == xs[0] + ", " + (xs[1] + ", " + xs[2]);
    Join(", ", three) + ", ..." + Last(xs)
  }

  /** __scheduleTD. `tzLabel` is the "[%Z]" text of the job's timezone, or
      "" when the job has none. Five or more times are shown as the first
      three, ", ..." and the last, with the full text as the title. */
  function ScheduleCell(every: Jobs.Interval, typeName: string, at: At, tzLabel: string): (r: Cell)
    ensures r.title.Some? <==>
      !every.Seconds? && typeName != "OneTimeJob" && typeName != "NeverJob" && at.AtList? && |at.items| >= 5
    ensures r.title.Some? ==>
      r.title.value == Strip("every " + Jobs.IntervalString(every) + " at " + Join(", ", at.items) + " " + tzLabel)
    ensures typeName == "NeverJob" && !every.Seconds? ==> r.content == "on-demand"
    ensures every.Seconds? ==> r.content == Strip("every " + IntToString(every.n) + " seconds " + tzLabel)
    ensures !every.Seconds? && typeName == "OneTimeJob" ==>
      r.content == Strip("on " + every.s + " at " + AtString(at) + " " + tzLabel)
    ensures r.title.Some? ==>
      r.content == Strip("every " + every.s + " at " + ShortTimes(at.items) + " " + tzLabel)
    ensures !every.Seconds? && typeName != "OneTimeJob" && typeName != "NeverJob" && r.title.None? ==>
      r.content == Strip("every " + every.s + " at " + (if at.AtList? then Join(", ", at.items) else at.s) + " " + tzLabel)
  {
    var e := Jobs.IntervalString(every);
    if every.Seconds? then Cell(Strip("every " + e + " seconds " + tzLabel), None)
    else if typeName == "OneTimeJob" then Cell(Strip("on " + e + " at " + AtString(at) + " " + tzLabel), None)
    else if typeName == "NeverJob" then Cell("on-demand", None)
    else if at.AtList? then
      var full := "every " + e + " at " + Join(", ", at.items) + " " + tzLabel;
      if |at.items| >= 5 then
        var short := ShortTimes(at.items);
        Cell(Strip("every " + e + " at " + short + " " + tzLabel), Some(Strip(full)))
      else Cell(Strip(full), None)
    else Cell(Strip("every " + e + " at " + at.s + " " + tzLabel), None)
  }

  /** Without a timezone the trailing blank of the format is stripped away:
      a repeating job reads exactly "every N seconds". */
  lemma RepeatScheduleWithoutZone(n: int, typeName: string, at: At)
    ensures ScheduleCell(Jobs.Seconds(n), typeName, at, "").content == "every " + IntToString(n) + " seconds"
  {
    var text := "every " + IntToString(n) + " seconds";
    assert "every " + Jobs.IntervalString(Jobs.Seconds(n)) + " seconds " + "" == text + " ";
    StripOuterSpace(text);
  }

  /** A line of the traceback points into the source: it is not blank and
      its stripped text occurs there. */
  predicate LineMatches(line: string, src: string)
  {
    !IsBlank(line) && Find(src, Strip(line)) >= 0
  }

  /** What one traceback line yields: the number of line breaks in the
      source before the place its stripped text is found, or -1. */
  function LineAnswer(line: string, src: string): (r: int)
    ensures r >= 0 <==> LineMatches(line, src)
    ensures r >= 0 ==> r == Count(src[..Find(src, Strip(line))], '\n')
    ensures -1 <= r <= Count(src, '\n')
  {
    if LineMatches(line, src) then
      CountPrefix(src, '\n', Find(src, Strip(line)));
      Count(src[..Find(src, Strip(line))], '\n')
    else -1
  }

  /** Each traceback line's answer against the source. */
  function Answers(src: string): string -> int
  {
    line => LineAnswer(line, src)
  }

  /** The first answer from line `k` on that is not -1, or -1. */
  function FirstFound(answer: string -> int, lines: seq<string>, k: nat): int
    requires k <= |lines|
    decreases |lines| - k
  {
    if k == |lines| then -1
    else if answer(lines[k]) >= 0 then answer(lines[k])
    else FirstFound(answer, lines, k + 1)
  }

  lemma FirstFoundStep(answer: string -> int, lines: seq<string>, k: nat)
    requires k < |lines|
    ensures FirstFound(answer, lines, k) ==
      if answer(lines[k]) >= 0 then answer(lines[k]) else FirstFound(answer, lines, k + 1)
  {
  }

  lemma {:induction false} FirstFoundSpec(answer: string -> int, lines: seq<string>, k: nat) returns (i: nat)
    requires k <= |lines|
    ensures FirstFound(answer, lines, k) == -1 || FirstFound(answer, lines, k) >= 0
    ensures FirstFound(answer, lines, k) == -1 <==> forall j :: k <= j < |lines| ==> answer(lines[j]) < 0
    ensures FirstFound(answer, lines, k) >= 0 ==>
      k <= i < |lines| && FirstFound(answer, lines, k) == answer(lines[i])
      && forall j :: k <= j < i ==> answer(lines[j]) < 0
    decreases |lines| - k
  {
    i := k;
    if k < |lines| && answer(lines[k]) < 0 {
      i := FirstFoundSpec(answer, lines, k + 1);
    }
  }

  /** The line of the source (counted from 0) that an error points at, or -1. */
  function ErrLine(err: string, src: string): int
  {
    if IsBlank(err) then -1 else FirstFound(Answers(src), Split(Strip(err), '\n'), 0)
  }

  /** __src_err_line: the first traceback line found in the source decides. */
  method SrcErrLine(err: string, src: string) returns (r: int)
    ensures r == ErrLine(err, src)
  {
    if !IsBlank(err) {
      var lines := Split(Strip(err), '\n');
      ghost var answer := Answers(src);
      var k := 0;
      assert ErrLine(err, src) == FirstFound(answer, lines, 0);
      while k < |lines|
        invariant 0 <= k <= |lines|
        invariant ErrLine(err, src) == FirstFound(answer, lines, k)
        decreases |lines| - k
      {
        var l := lines[k];
        FirstFoundStep(answer, lines, k);
        assert answer(l) == LineAnswer(l, src);
        if !IsBlank(l) {
          var idx := Find(src, Strip(l));
          if idx >= 0 {
            return Count(src[..idx], '\n');
          }
        }
        k := k + 1;
      }
    }
    return -1;
  }

  /** The error line is -1 exactly when no traceback line points into the
      source; otherwise it is the number of line breaks before the place the
      first such line is found, so it names a line of the source. */
  lemma ErrLineSpec(err: string, src: string) returns (i: nat)
    ensures -1 <= ErrLine(err, src) <= Count(src, '\n')
    ensures ErrLine(err, src) == -1 <==> NoneMatch(Split(Strip(err), '\n'), src)
    ensures ErrLine(err, src) >= 0 ==>
      i < |Split(Strip(err), '\n')| && LineMatches(Split(Strip(err), '\n')[i], src)
      && (forall j :: 0 <= j < i ==> !LineMatches(Split(Strip(err), '\n')[j], src))
      && ErrLine(err, src) == Count(src[..Find(src, Strip(Split(Strip(err), '\n')[i]))], '\n')
  {
    var lines := Split(Strip(err), '\n');
    if IsBlank(err) {
      BlankErrMatchesNothing(err, src);
      assert ErrLine(err, src) == -1;
      i := 0;
    } else {
      assert ErrLine(err, src) == FirstFound(Answers(src), lines, 0);
      i := FirstMatch(lines, src);
    }
  }

  /** No line of the traceback points into the source. */
  predicate NoneMatch(lines: seq<string>, src: string)
  {
    forall j :: 0 <= j < |lines| ==> !LineMatches(lines[j], src)
  }

  /** A blank traceback is one empty line, which matches nothing. */
  lemma BlankErrMatchesNothing(err: string, src: string)
    requires IsBlank(err)
    ensures NoneMatch(Split(Strip(err), '\n'), src)
  {
    var lines := Split(Strip(err), '\n');
    assert lines == [""];
    assert IsBlank(lines[0]) by { StripSpec(lines[0]); }
  }

  /** The search over the lines finds the first line that matches. */
  lemma FirstMatch(lines: seq<string>, src: string) returns (i: nat)
    ensures -1 <= FirstFound(Answers(src), lines, 0) <= Count(src, '\n')
    ensures FirstFound(Answers(src), lines, 0) == -1 <==> NoneMatch(lines, src)
    ensures FirstFound(Answers(src), lines, 0) >= 0 ==>
      i < |lines| && LineMatches(lines[i], src)
      && (forall j :: 0 <= j < i ==> !LineMatches(lines[j], src))
      && FirstFound(Answers(src), lines, 0) == Count(src[..Find(src, Strip(lines[i]))], '\n')
  {
    i := FirstFoundSpec(Answers(src), lines, 0);
    forall j | 0 <= j < |lines|
      ensures Answers(src)(lines[j]) == LineAnswer(lines[j], src)
    {
    }
  }

  /** One row of the summary's details. */
  datatype Detail = Detail(id: int, state: StateKind, signature: string, prevRun: Option<int>, nextRun: Option<int>)

  datatype Summary = NothingHere | Summary(count: nat, running: nat, errors: nat, details: seq<Detail>)

  function DetailOf(j: JobInfo): Detail
  {
    Detail(j.jobid, JobState(j).state, j.signature, j.start, j.nextRun)
  }

  /** `[f(x) for x in s]` */
  function MapSeq<A, B>(f: A -> B, s: seq<A>): (r: seq<B>)
    ensures |r| == |s| && forall i :: 0 <= i < |s| ==> r[i] == f(s[i])
  {
    if s == [] then [] else MapSeq(f, s[..|s| - 1]) + [f(s[|s| - 1])]
  }

  /** The number of jobs whose state is `k`. */
  function CountState(jobs: seq<JobInfo>, k: StateKind): nat
  {
    if jobs == [] then 0
    else CountState(jobs[..|jobs| - 1], k) + (if JobState(jobs[|jobs| - 1]).state == k then 1 else 0)
  }

  /** __get_summary_json: "Nothing here" for no jobs; otherwise the number
      of jobs, of failed ones and of running ones, and one detail per job in
      order. */
  method GetSummary(jobs: seq<JobInfo>) returns (r: Summary)
    ensures r == NothingHere <==> jobs == []
    ensures r.Summary? ==> r.count == |jobs|
    ensures r.Summary? ==> r.errors == CountState(jobs, Error) && r.running == CountState(jobs, Running)
    ensures r.Summary? ==> r.errors + r.running <= r.count
    ensures r.Summary? ==> r.details == MapSeq(DetailOf, jobs)
  {
    if |jobs| == 0 {
      return NothingHere;
    }
    var count, running, errors := 0, 0, 0;
    var details: seq<Detail> := [];
    var k := 0;
    while k < |jobs|
      invariant 0 <= k <= |jobs| && count == k
      invariant errors == CountState(jobs[..k], Error) && running == CountState(jobs[..k], Running)
      invariant errors + running <= count
      invariant details == MapSeq(DetailOf, jobs[..k])
      decreases |jobs| - k
    {
      var state := JobState(jobs[k]);
      assert jobs[..k + 1][..k] == jobs[..k];
      count := count + 1;
      if state.state == Error {
        errors := errors + 1;
      } else if state.state == Running {
        running := running + 1;
      }
      details := details + [DetailOf(jobs[k])];
      k := k + 1;
    }
    assert jobs[..k] == jobs;
    return Summary(count, running, errors, details);
  }

  /** The NEXT_RUN literal of the job page: "Disabled" for a disabled job,
      else the timestamp of the next run, else "Never". */
  function NextRunLiteral(isDisabled: bool, nextRun: Option<int>): (r: JsValue)
    ensures r.JsNumber? <==> !isDisabled && nextRun.Some?
    ensures r.JsNumber? ==> r.n == nextRun.value
    ensures r.JsString? ==> r.s == if isDisabled then "Disabled" else "Never"
  {
    if isDisabled then JsString("Disabled")
    else if nextRun.Some? then JsNumber(nextRun.value)
    else JsString("Never")
  }

  /** The reply of a POST endpoint: {'success': True} or {'error': ...}. */
  datatype Reply = JsonSuccess | JsonError(error: string)

  type Request = map<string, Json>

  const InvalidToken := "Invalid token. Rerun blocked. Please reload the page and try again"
  const InvalidInput := "Invalid input"
  const ActionBlocked := "Action blocked"
  const JobNotFound := "Job not found"
  /** str(KeyError('disable')) */
  const MissingDisable := "'disable'"

  /** `'api_token' in data and data['api_token'] == token` */
  predicate TokenOk(data: Request, token: string)
  {
    "api_token" in data && data["api_token"] == JStr(token)
  }

  /** `data[key]` when it is present and an int (a bool is an int in Python,
      a float is not). */
  function IntField(data: Request, key: string): Option<int>
  {
    if key !in data then None
    else match data[key]
      case JInt(i) => Some(i)
      case JBool(b) => Some(if b then 1 else 0)
      case _ => None
  }

  /** `data['disable'] == True`: Python's `==` also holds for the int 1 and
      the float 1.0. */
  predicate IsTrue(v: Json)
  {
    v == JBool(true) || v == JInt(1) || v == JFloat(1.0)
  }

  /** __rerun_job, with `rerun` the error sched.rerun raises for an id (None
      when it starts the job). The second component is the id rerun was
      called with, if it was. */
  function RerunJob(data: Request, token: string, rerun: int -> Option<string>): (r: (Reply, Option<int>))
    ensures r.1.Some? <==> TokenOk(data, token) && IntField(data, "jobid").Some?
    ensures r.1.Some? ==> r.1.value == IntField(data, "jobid").value
    ensures !TokenOk(data, token) ==> r.0 == JsonError(InvalidToken)
    ensures TokenOk(data, token) && IntField(data, "jobid").None? ==> r.0 == JsonError(InvalidInput)
    ensures r.0 == JsonSuccess <==> r.1.Some? && rerun(r.1.value).None?
    ensures r.1.Some? && rerun(r.1.value).Some? ==> r.0 == JsonError(rerun(r.1.value).value)
  {
    var error :=
      if !TokenOk(data, token) then Some(InvalidToken)
      else if IntField(data, "jobid").None? then Some(InvalidInput)
      else rerun(IntField(data, "jobid").value);
    var called := if TokenOk(data, token) && IntField(data, "jobid").Some? then Some(IntField(data, "jobid").value) else None;
    (if error.Some? then JsonError(error.value) else JsonSuccess, called)
  }

  /** __enable_disable_job as written. `known` holds the ids get_job_by_id
      finds. The second component is the (id, disable) pair acted on, if
      any. A failed token check only sets the error; the id check that
      follows is an `if`, not an `elif`, so the job is still enabled or
      disabled. */
  function EnableDisableAsWritten(data: Request, token: string, known: set<int>): (r: (Reply, Option<(int, bool)>))
    ensures r.1.Some? <==> IntField(data, "jobid").Some? && IntField(data, "jobid").value in known && "disable" in data
    ensures r.1.Some? ==> r.1.value == (IntField(data, "jobid").value, IsTrue(data["disable"]))
    ensures IntField(data, "jobid").None? ==> r.0 == JsonError(InvalidInput)
    ensures IntField(data, "jobid").Some? && IntField(data, "jobid").value !in known ==> r.0 == JsonError(JobNotFound)
    ensures IntField(data, "jobid").Some? && IntField(data, "jobid").value in known && "disable" !in data
            ==> r.0 == JsonError(MissingDisable)
    ensures r.1.Some? ==> r.0 == if TokenOk(data, token) then JsonSuccess else JsonError(ActionBlocked)
  {
    var error := if !TokenOk(data, token) then Some(ActionBlocked) else None;
    if IntField(data, "jobid").None? then (JsonError(InvalidInput), None)
    else
      var id := IntField(data, "jobid").value;
      if id !in known then (JsonError(JobNotFound), None)
      else if "disable" !in data then (JsonError(MissingDisable), None)
      else (if error.Some? then JsonError(error.value) else JsonSuccess, Some((id, IsTrue(data["disable"]))))
  }

  /** A request without a token still disables a job, and is answered
      "Action blocked". */
  lemma EnableDisableIgnoresToken()
    ensures EnableDisableAsWritten(map["jobid" := JInt(0), "disable" := JBool(true)], "secret", {0})
      == (JsonError(ActionBlocked), Some((0, true)))
  {
    var data := map["jobid" := JInt(0), "disable" := JBool(true)];
    assert !TokenOk(data, "secret");
    assert IntField(data, "jobid") == Some(0);
  }

  /** JSON floats: "disable": 1.0 compares equal to True and disables the
      job, while a float id is not an int and is refused as invalid input. */
  lemma FloatFields(token: string)
    ensures EnableDisable(map["jobid" := JInt(0), "disable" := JFloat(1.0), "api_token" := JStr(token)], token, {0})
      == (JsonSuccess, Some((0, true)))
    ensures EnableDisable(map["jobid" := JFloat(0.0), "disable" := JBool(true), "api_token" := JStr(token)], token, {0})
      == (JsonError(InvalidInput), None)
  {
    var data := map["jobid" := JInt(0), "disable" := JFloat(1.0), "api_token" := JStr(token)];
    assert TokenOk(data, token) && IntField(data, "jobid") == Some(0);
    var bad := map["jobid" := JFloat(0.0), "disable" := JBool(true), "api_token" := JStr(token)];
    assert TokenOk(bad, token) && IntField(bad, "jobid").None?;
  }

  /** __enable_disable_job as its "Action blocked" reply intends: a failed
      token check ends the request. */
  function EnableDisable(data: Request, token: string, known: set<int>): (r: (Reply, Option<(int, bool)>))
    ensures r.1.Some? <==>
      TokenOk(data, token) && IntField(data, "jobid").Some? && IntField(data, "jobid").value in known && "disable" in data
    ensures r.1.Some? ==> r.1.value == (IntField(data, "jobid").value, IsTrue(data["disable"]))
    ensures r.0 == JsonSuccess <==> r.1.Some?
    ensures !TokenOk(data, token) ==> r == (JsonError(ActionBlocked), None)
  {
    if !TokenOk(data, token) then (JsonError(ActionBlocked), None)
    else EnableDisableAsWritten(data, token, known)
  }

  /** The corrected handler differs from the handler as written only on
      requests that fail the token check; there it changes nothing, and as
      written those requests are never answered with success either. */
  lemma EnableDisableDiffersOnlyOnToken(data: Request, token: string, known: set<int>)
    ensures TokenOk(data, token) ==> EnableDisable(data, token, known) == EnableDisableAsWritten(data, token, known)
    ensures !TokenOk(data, token) ==> EnableDisable(data, token, known).1 == None
                                      && EnableDisableAsWritten(data, token, known).0 != JsonSuccess
  {
  }
}
