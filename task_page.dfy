/** The script of the single-job page (flask_production/plugins/web/js/task.js):
    zero padding and the countdown text, the choice the load handler makes
    between reloading, a fixed label and a countdown, the countdown tick,
    and the two confirmation-gated actions. Time is in integer
    milliseconds; everything the script does to the browser is recorded as
    an Effect. */
module TaskPage {
  import opened Wrappers
  import opened Text
  import opened Browser
  import TaskMonitor

  /** `size || 2`: a missing or zero size means 2. */
  function PadWidth(size: Option<int>): int
  {
    if size.None? || size.value == 0 then 2 else size.value
  }

  /** Number.prototype.pad on a non-negative integer: prepends "0" while
      the text is shorter than the width. */
  method Pad(n: nat, size: Option<int>) returns (s: string)
    ensures s == ZeroPad(NatToString(n), PadWidth(size))
  {
    var width := PadWidth(size);
    s := NatToString(n);
    ghost var digits, zeros := s, 0;
    while |s| < width
      invariant s == Zeros(zeros) + digits && |s| == zeros + |digits|
      invariant zeros == 0 || |s| <= width
      decreases width - |s|
    {
      OneMoreZero(zeros, digits);
      s, zeros := "0" + s, zeros + 1;
    }
    PaddedEnough(digits, width, zeros);
  }

  lemma OneMoreZero(zeros: nat, digits: string)
    ensures "0" + (Zeros(zeros) + digits) == Zeros(zeros + 1) + digits
  {
    assert Zeros(zeros + 1) == "0" + Zeros(zeros);
  }

  /** Once the zeros reach the width, or there was nothing to add, the
      text is the zero-padded one. */
  lemma PaddedEnough(digits: string, width: int, zeros: nat)
    requires zeros + |digits| >= width && (zeros == 0 || zeros + |digits| <= width)
    ensures Zeros(zeros) + digits == ZeroPad(digits, width)
  {
    if |digits| < width {
      assert zeros == width - |digits|;
    }
  }

  /** `n.pad()`: the decimal text of `n`, zero-filled to two digits. */
  function Pad2(n: nat): string
  {
    ZeroPad(NatToString(n), 2)
  }

  /** The text countdown_str shows for `ttrMs` milliseconds to go: hours,
      minutes and whole seconds, each padded to two digits. */
  function CountdownText(ttrMs: nat): string
  {
    var secs := ttrMs / 1000;
    Clock(secs / 3600, secs % 3600 / 60, secs % 60)
  }

  /** "hh:mm:ss" */
  function Clock(h: nat, m: nat, s: nat): string
  {
    Pad2(h) + ":" + Pad2(m) + ":" + Pad2(s)
  }

  /** countdown_str(ttr / 1000): hours first, then what is left in minutes,
      then what is left in whole seconds. */
  method CountdownStr(ttrMs: nat) returns (r: string)
    ensures r == CountdownText(ttrMs)
  {
    var seconds := ttrMs / 1000;
    ghost var secs := seconds;
    var hours := seconds / 3600;
    seconds := seconds - hours * 3600;
    assert seconds == secs % 3600;
    var minutes := seconds / 60;
    seconds := seconds - minutes * 60;
    assert seconds == secs % 60 by {
      assert secs % 3600 == minutes * 60 + seconds;
      assert secs == hours * 3600 + minutes * 60 + seconds;
      assert secs == (hours * 60 + minutes) * 60 + seconds;
    }
    var h := Pad(hours, None);
    var m := Pad(minutes, None);
    var s := Pad(seconds, None);
    r := h + ":" + m + ":" + s;
  }

  /** The countdown names hours, minutes below 60 and seconds below 60 that
      add up to the whole seconds to go; hours do not wrap at a day. */
  lemma CountdownFields(ttrMs: nat) returns (h: nat, m: nat, s: nat)
    ensures m < 60 && s < 60 && TotalSeconds(h, m, s) == ttrMs / 1000
    ensures CountdownText(ttrMs) == Clock(h, m, s)
  {
    var secs := ttrMs / 1000;
    h, m, s := secs / 3600, secs % 3600 / 60, secs % 60;
    var rest := secs % 3600;
    assert secs == 60 * (60 * h) + rest;
    assert rest % 60 == s by { ShiftRemainder(60 * h, rest); }
    assert rest == 60 * m + s;
  }

  /** Whole minutes do not change the seconds. */
  lemma ShiftRemainder(k: nat, r: nat)
    ensures (60 * k + r) % 60 == r % 60
  {
    var t := 60 * k + r;
    assert t == 60 * (t / 60) + t % 60;
    assert r == 60 * (r / 60) + r % 60;
    assert 60 * (k + r / 60 - t / 60) == t % 60 - r % 60;
  }

  function TotalSeconds(h: nat, m: nat, s: nat): nat
  {
    3600 * h + 60 * m + s
  }

  /** Reference reader for "h:m:s" texts: the number of seconds they stand
      for. */
  function ReadCountdown(t: string): Option<nat>
  {
    ReadFields(Split(t, ':'))
  }

  /** Three fields of decimal digits: hours, minutes and seconds. */
  function ReadFields(parts: seq<string>): Option<nat>
  {
    if |parts| == 3 && TaskMonitor.Digits(parts[0]) && TaskMonitor.Digits(parts[1]) && TaskMonitor.Digits(parts[2])
    then Some(TotalSeconds(ParseDigits(parts[0]), ParseDigits(parts[1]), ParseDigits(parts[2])))
    else None
  }

  /** The countdown text reads back as the whole seconds to go. */
  lemma CountdownRoundTrip(ttrMs: nat)
    ensures ReadCountdown(CountdownText(ttrMs)) == Some(ttrMs / 1000)
  {
    var h, m, s := CountdownFields(ttrMs);
    ClockRoundTrip(h, m, s);
  }

  lemma ClockRoundTrip(h: nat, m: nat, s: nat)
    ensures ReadCountdown(Clock(h, m, s)) == Some(TotalSeconds(h, m, s))
  {
    var a, b, c := Pad2(h), Pad2(m), Pad2(s);
    Pad2Reads(h);
    Pad2Reads(m);
    Pad2Reads(s);
    SplitFields(a, b, c);
    ReadThree(a, b, c);
  }

  lemma ReadThree(a: string, b: string, c: string)
    requires TaskMonitor.Digits(a) && TaskMonitor.Digits(b) && TaskMonitor.Digits(c)
    ensures ReadFields([a, b, c]) == Some(TotalSeconds(ParseDigits(a), ParseDigits(b), ParseDigits(c)))
  {
    var parts := [a, b, c];
    assert parts[0] == a && parts[1] == b && parts[2] == c;
  }

  lemma Pad2Reads(n: nat)
    ensures TaskMonitor.Digits(Pad2(n)) && ParseDigits(Pad2(n)) == n && ':' !in Pad2(n)
  {
    ParseZeroPad(n, 2);
    assert !IsDigit(':');
  }

  /** Fields without a colon are split apart again at the two colons. */
  lemma SplitFields(a: string, b: string, c: string)
    requires ':' !in a && ':' !in b && ':' !in c
    ensures Split(a + ":" + b + ":" + c, ':') == [a, b, c]
  {
    assert a + ":" + b + ":" + c == a + [':'] + (b + [':'] + c);
    SplitPrefix(a, ':', b + [':'] + c);
    SplitPrefix(b, ':', c);
  }

  /** One digit is padded with a leading zero, two are kept. */
  lemma Pad2Digits(n: nat)
    requires n < 100
    ensures n < 10 ==> Pad2(n) == ['0', DigitChar(n)]
    ensures n >= 10 ==> Pad2(n) == [DigitChar(n / 10), DigitChar(n % 10)]
  {
    if n >= 10 {
      assert NatToString(n) == NatToString(n / 10) + [DigitChar(n % 10)];
    }
  }

  /** The variables the server writes into the page. */
  datatype PageVars = PageVars(running: int, nextRun: JsValue, errLine: int, refresh: int, apiToken: string)

  /** The page variables of a job, as the newer monitor writes them. */
  function VarsOf(j: TaskMonitor.JobInfo, refresh: int, apiToken: string): PageVars
  {
    PageVars(if j.isRunning then 1 else 0, TaskMonitor.NextRunLiteral(j.isDisabled, j.nextRun),
             TaskMonitor.ErrLine(j.err, j.src), refresh, apiToken)
  }

  /** A string JavaScript reads as a number: here only the empty string and
      strings of decimal digits. */
  predicate NumericText(s: string)
  {
    s == "" || TaskMonitor.Digits(s)
  }

  /** isNaN(v) */
  predicate IsNaN(v: JsValue)
  {
    v.JsString? && !NumericText(v.s)
  }

  /** Number(v) for a value that is a number. */
  function NumberOf(v: JsValue): int
    requires !IsNaN(v)
  {
    match v
    case JsNumber(n) => n
    case JsString(s) => if s == "" then 0 else ParseDigits(s)
  }

  /** String(v), as innerHTML shows it. */
  function TextOf(v: JsValue): string
  {
    match v
    case JsNumber(n) => IntToString(n)
    case JsString(s) => s
  }

  datatype Mode = Reloading | Fixed | Countdown

  /** The mode the load handler enters: RUNNING first, then a NEXT_RUN that
      is not a number, then the countdown. */
  function LoadMode(vars: PageVars): (m: Mode)
    ensures m == Reloading <==> vars.running != 0
    ensures m == Fixed <==> vars.running == 0 && IsNaN(vars.nextRun)
    ensures m == Countdown <==> vars.running == 0 && !IsNaN(vars.nextRun)
  {
    if vars.running != 0 then Reloading
    else if IsNaN(vars.nextRun) then Fixed
    else Countdown
  }

  /** What the server writes decides the mode: a running job reloads, a
      disabled job or one with no next run shows its label, any other
      counts down to its next run. */
  lemma ServerChoosesMode(j: TaskMonitor.JobInfo, refresh: int, apiToken: string)
    ensures LoadMode(VarsOf(j, refresh, apiToken)) ==
      if j.isRunning then Reloading
      else if j.isDisabled || j.nextRun.None? then Fixed
      else Countdown
    ensures !j.isRunning && j.isDisabled ==> TextOf(VarsOf(j, refresh, apiToken).nextRun) == "Disabled"
    ensures !j.isRunning && !j.isDisabled && j.nextRun.None? ==> TextOf(VarsOf(j, refresh, apiToken).nextRun) == "Never"
  {
    var v := TaskMonitor.NextRunLiteral(j.isDisabled, j.nextRun);
    if v.JsString? {
      assert !IsDigit(v.s[0]);
    }
  }

  /** The effects of the load handler after the logs are scrolled: the mode's
      one action, then the highlight of the error line when there is one. */
  function LoadEffects(vars: PageVars): seq<Effect>
  {
    [ScrollLogsToBottom]
      + (match LoadMode(vars)
         case Reloading => [SetTimeout(vars.refresh * 1000, ReloadPage)]
         case Fixed => [WriteText("next-run-in", TextOf(vars.nextRun))]
         case Countdown => [SetInterval(1000)])
      + (if vars.errLine >= 0 then [HighlightLines(vars.errLine, vars.errLine)] else [])
  }

  /** The single-job page after its load handler ran. */
  class TaskPageController {
    const vars: PageVars
    var intervalLive: bool
    var nextRunIn: string
    var effects: seq<Effect>

    /** No more than one timer is alive: the countdown interval or one
        pending reload. */
    predicate Valid()
      reads this
    {
      (if intervalLive then 1 else 0) + TimeoutCount(effects) <= 1
      && (intervalLive ==> LoadMode(vars) == Countdown)
    }

    /** The load handler. */
    constructor Load(vars: PageVars)
      ensures this.vars == vars && Valid()
      ensures effects == LoadEffects(vars)
      ensures intervalLive <==> LoadMode(vars) == Countdown
      ensures nextRunIn == if LoadMode(vars) == Fixed then TextOf(vars.nextRun) else "-"
    {
      this.vars := vars;
      var action: seq<Effect>;
      var live := false;
      var shown := "-";
      if vars.running != 0 {
        action := [SetTimeout(vars.refresh * 1000, ReloadPage)];
      } else if IsNaN(vars.nextRun) {
        shown := TextOf(vars.nextRun);
        action := [WriteText("next-run-in", shown)];
      } else {
        action := [SetInterval(1000)];
        live := true;
      }
      var highlight: seq<Effect> := [];
      if vars.errLine >= 0 {
        highlight := [HighlightLines(vars.errLine, vars.errLine)];
      }
      intervalLive := live;
      nextRunIn := shown;
      effects := [ScrollLogsToBottom] + action + highlight;
      HighlightOnce(vars);
    }

    /** `NEXT_RUN * 1000 - Date.now()`: milliseconds to the next run. */
    function TimeToRun(nowMs: int): int
      requires !IsNaN(vars.nextRun)
    {
      NumberOf(vars.nextRun) * 1000 - nowMs
    }

    /** One tick of the countdown at wall-clock time `nowMs`: when the next
        run is due the interval is cleared and then one reload is set for a
        second later; otherwise the time to go is shown. */
    method Tick(nowMs: int)
      requires intervalLive && Valid()
      modifies this
      ensures Valid()
      ensures TimeToRun(nowMs) <= 0 ==>
        !intervalLive && effects == old(effects) + [ClearInterval, SetTimeout(1000, ReloadPage)]
        && nextRunIn == old(nextRunIn)
      ensures TimeToRun(nowMs) > 0 ==>
        intervalLive && nextRunIn == CountdownText(TimeToRun(nowMs))
        && effects == old(effects) + [WriteText("next-run-in", nextRunIn)]
    {
      var ttr := TimeToRun(nowMs);
      if ttr <= 0 {
        Expire();
      } else {
        ShowRemaining(ttr);
      }
    }

    /** The next run is due: the interval is cleared, then one reload is set
        for a second later. */
    method Expire()
      requires intervalLive && Valid()
      modifies this
      ensures Valid() && !intervalLive && nextRunIn == old(nextRunIn)
      ensures effects == old(effects) + [ClearInterval, SetTimeout(1000, ReloadPage)]
    {
      TimeoutCountAppend(effects, [ClearInterval, SetTimeout(1000, ReloadPage)]);
      TimeoutPair();
      effects := effects + [ClearInterval, SetTimeout(1000, ReloadPage)];
      intervalLive := false;
    }

    /** The next run is `ttr` milliseconds away: the countdown shows it. */
    method ShowRemaining(ttr: nat)
      requires intervalLive && Valid()
      modifies this
      ensures Valid() && intervalLive && nextRunIn == CountdownText(ttr)
      ensures effects == old(effects) + [WriteText("next-run-in", nextRunIn)]
    {
      var text := CountdownStr(ttr);
      TimeoutCountAppend(effects, [WriteText("next-run-in", text)]);
      TimeoutSingleWrite(text);
      effects := effects + [WriteText("next-run-in", text)];
      nextRunIn := text;
    }
  }

  lemma TimeoutPair()
    ensures TimeoutCount([ClearInterval, SetTimeout(1000, ReloadPage)]) == 1
  {
    assert [ClearInterval, SetTimeout(1000, ReloadPage)][..1] == [ClearInterval];
    assert [ClearInterval][..0] == [];
  }

  lemma TimeoutSingleWrite(text: string)
    ensures TimeoutCount([WriteText("next-run-in", text)]) == 0
  {
    assert [WriteText("next-run-in", text)][..0] == [];
  }

  /** The highlight request: exactly one range, from and to ERR_LINE, when
      ERR_LINE is not negative; none otherwise. */
  lemma HighlightOnce(vars: PageVars)
    ensures TimeoutCount(LoadEffects(vars)) == if LoadMode(vars) == Reloading then 1 else 0
    ensures vars.errLine >= 0 ==> LoadEffects(vars)[|LoadEffects(vars)| - 1] == HighlightLines(vars.errLine, vars.errLine)
    ensures forall i :: 0 <= i < |LoadEffects(vars)| && LoadEffects(vars)[i].HighlightLines? ==>
      vars.errLine >= 0 && i == |LoadEffects(vars)| - 1
  {
    var mode := LoadEffects(vars)[1..2];
    var tail := if vars.errLine >= 0 then [HighlightLines(vars.errLine, vars.errLine)] else [];
    assert LoadEffects(vars) == [ScrollLogsToBottom] + mode + tail;
    TimeoutCountAppend([ScrollLogsToBottom] + mode, tail);
    TimeoutCountAppend([ScrollLogsToBottom], mode);
    assert [ScrollLogsToBottom][..0] == [];
    assert mode[..0] == [];
    if tail != [] {
      assert tail[..0] == [];
    }
  }

  /** What the reply to a confirmed action leads to. */
  datatype FetchOutcome = Replied(reply: TaskMonitor.Reply) | Rejected(message: string)

  /** The promise chain after the POST: success reloads; an error reply, or
      the fallback message when its error is empty, is thrown and alerted;
      a failed request is alerted as it is. */
  function ReplyEffects(outcome: FetchOutcome, fallback: string): (r: seq<Effect>)
    ensures |r| == 1
    ensures r[0] == Reload <==> outcome == Replied(TaskMonitor.JsonSuccess)
    ensures r[0].Alert? <==> outcome != Replied(TaskMonitor.JsonSuccess)
    ensures outcome.Rejected? ==> r == [Alert(outcome.message)]
    ensures outcome.Replied? && outcome.reply.JsonError? && outcome.reply.error != ""
            ==> r == [Alert("Error: " + outcome.reply.error)]
    ensures outcome == Replied(TaskMonitor.JsonError("")) ==> r == [Alert("Error: " + fallback)]
  {
    if outcome.Rejected? then [Alert(outcome.message)]
    else if outcome.reply.JsonSuccess? then [Reload]
    else [Alert("Error: " + (if outcome.reply.error != "" then outcome.reply.error else fallback))]
  }

  function RerunPayload(jobid: int, apiToken: string): map<string, Json>
  {
    map["jobid" := JInt(jobid), "api_token" := JStr(apiToken)]
  }

  /** rerun_trigger: asks for the job name; only the exact name posts the
      rerun request, anything else (a cancelled prompt included) is
      answered "Rerun aborted". `typed` is what the prompt returned. */
  function RerunTrigger(jobName: string, jobid: int, apiToken: string, typed: Option<string>, outcome: FetchOutcome): (e: seq<Effect>)
    ensures |e| >= 2 && e[0] == Prompt("Please type in the job name to confirm rerun")
    ensures typed == Some(jobName) ==> |e| == 3 && e[1] == Post("./rerun", RerunPayload(jobid, apiToken))
                                       && (e[2] == Reload <==> outcome == Replied(TaskMonitor.JsonSuccess))
    ensures typed == Some(jobName) ==> e[2..] == ReplyEffects(outcome, "Rerun failed")
    ensures typed != Some(jobName) ==> e == [e[0], Alert("Rerun aborted")]
    ensures forall i :: 0 <= i < |e| && e[i].Post? ==> i == 1 && typed == Some(jobName)
  {
    [Prompt("Please type in the job name to confirm rerun")]
      + if typed == Some(jobName)
        then [Post("./rerun", RerunPayload(jobid, apiToken))] + ReplyEffects(outcome, "Rerun failed")
        else [Alert("Rerun aborted")]
  }

  function EnableDisablePayload(jobid: int, disable: bool, apiToken: string): map<string, Json>
  {
    map["jobid" := JInt(jobid), "disable" := JBool(disable), "api_token" := JStr(apiToken)]
  }

  /** enable_disable: the same confirmation, naming the action. */
  function EnableDisable(jobName: string, jobid: int, disable: bool, apiToken: string, typed: Option<string>, outcome: FetchOutcome): (e: seq<Effect>)
    ensures |e| >= 2 && e[0] == Prompt("Please type in the job name to confirm " + (if disable then "disable" else "enable"))
    ensures typed == Some(jobName) ==> |e| == 3 && e[1] == Post("./enable_disable", EnableDisablePayload(jobid, disable, apiToken))
                                       && (e[2] == Reload <==> outcome == Replied(TaskMonitor.JsonSuccess))
    ensures typed == Some(jobName) ==> e[2..] == ReplyEffects(outcome, "Action failed")
    ensures typed != Some(jobName) ==> e == [e[0], Alert("Action aborted")]
    ensures forall i :: 0 <= i < |e| && e[i].Post? ==> i == 1 && typed == Some(jobName)
  {
    [Prompt("Please type in the job name to confirm " + (if disable then "disable" else "enable"))]
      + if typed == Some(jobName)
        then [Post("./enable_disable", EnableDisablePayload(jobid, disable, apiToken))] + ReplyEffects(outcome, "Action failed")
        else [Alert("Action aborted")]
  }

  /** A request the page posts with the server's token gets past the checks
      of the rerun endpoint: the scheduler is asked to rerun that job, and
      the page reloads exactly when that starts it. */
  lemma RerunRequestAccepted(jobid: int, token: string, rerun: int -> Option<string>)
    ensures TaskMonitor.RerunJob(RerunPayload(jobid, token), token, rerun).1 == Some(jobid)
    ensures TaskMonitor.RerunJob(RerunPayload(jobid, token), token, rerun).0 == TaskMonitor.JsonSuccess <==> rerun(jobid).None?
  {
    var data := RerunPayload(jobid, token);
    assert TaskMonitor.TokenOk(data, token);
    assert TaskMonitor.IntField(data, "jobid") == Some(jobid);
  }

  /** The same for enabling and disabling: with the server's token a known
      job is switched the way the button asked. */
  lemma EnableDisableRequestAccepted(jobid: int, disable: bool, token: string, known: set<int>)
    requires jobid in known
    ensures TaskMonitor.EnableDisable(EnableDisablePayload(jobid, disable, token), token, known)
      == (TaskMonitor.JsonSuccess, Some((jobid, disable)))
  {
    var data := EnableDisablePayload(jobid, disable, token);
    assert TaskMonitor.TokenOk(data, token);
    assert TaskMonitor.IntField(data, "jobid") == Some(jobid);
    assert TaskMonitor.IsTrue(data["disable"]) == disable;
  }
}
