/** The older, read-only task monitor (flask_production/plugins.py): its own
    small HTML helpers, the state of a job without a disabled state, the
    state colours, the unpadded duration text, the schedule text, the
    description cell and the bound check of the single-job page. The error
    line is found exactly as in the newer monitor (TaskMonitor.SrcErrLine). */
module ReadOnlyMonitor {
  import opened Wrappers
  import opened Text
  import Jobs
  import opened HtmlTemplates
  import TaskMonitor

  // ---------------------------------------------------------------------
  // HTML helpers
  // ---------------------------------------------------------------------

  /** H(index, content) */
  function H(index: int, content: string): string
  {
    "<h" + IntToString(index) + ">" + content + "</h" + IntToString(index) + ">"
  }

  /** DIV(content, css): no class attribute at all when the list of class
      names is empty (a single name is never empty as a list). */
  function Div(content: string, css: Css): (r: string)
    ensures CssNames(css) == [] ==> r == "<div>" + content + "</div>"
  {
    if CssNames(css) != [] then "<div class='" + Join(" ", CssNames(css)) + "'>" + content + "</div>"
    else "<div>" + content + "</div>"
  }

  /** TABLE(thead, tbody, css) */
  function Table(thead: string, tbody: string, css: Css): (r: string)
    ensures CssNames(css) == [] ==> r == "<table>" + thead + tbody + "</table>"
  {
    if CssNames(css) != [] then "<table class='" + Join(" ", CssNames(css)) + "'>" + thead + tbody + "</table>"
    else "<table>" + thead + tbody + "</table>"
  }

  /** TD(content, css, colspan, rowspan): the class, colspan and rowspan
      attributes are always written; no content shows "-". */
  function Td(content: Option<string>, css: Css, colspan: int, rowspan: int): string
  {
    "<td class='" + Join(" ", CssNames(css)) + "' colspan=" + IntToString(colspan)
      + " rowspan=" + IntToString(rowspan) + ">" + (if content.Some? then content.value else "-") + "</td>"
  }

  /** CODE(s, css) */
  function Code(s: string, css: Css): string
  {
    "<pre><code class='" + Join(" ", CssNames(css)) + "'>" + s + "</code></pre>"
  }

  /** The read-only DIV writes what the newer serialiser writes for a div
      without attributes exactly when there are class names: with none, the
      newer one still writes an empty class attribute. */
  lemma DivAgrees(content: string, css: Css)
    ensures Div(content, css) == HtmlTemplates.Div(content, css, []) <==> CssNames(css) != []
  {
    if CssNames(css) == [] {
      DivWithoutClasses(content, css);
    } else {
      DivWithClasses(content, css);
    }
  }

  lemma DivWithClasses(content: string, css: Css)
    requires CssNames(css) != []
    ensures Div(content, css) == HtmlTemplates.Div(content, css, [])
  {
    var names := Join(" ", CssNames(css));
    assert HtmlTemplates.Div(content, css, []) == "<div " + ("class='" + names + "'") + ">" + content + "</div>";
  }

  lemma DivWithoutClasses(content: string, css: Css)
    requires CssNames(css) == []
    ensures Div(content, css) != HtmlTemplates.Div(content, css, [])
  {
    assert HtmlTemplates.Div(content, css, [])[4] == ' ';
    assert Div(content, css)[4] == '>';
  }

  /** Both monitors write the same code block. */
  lemma CodeAgrees(s: string, css: Css)
    ensures Code(s, css) == HtmlTemplates.Code(s, css)
  {
  }

  // ---------------------------------------------------------------------
  // State, colour, duration, schedule, description
  // ---------------------------------------------------------------------

  /** __state: running first, then a non-blank traceback, then a finished
      run that printed something, otherwise ready; there is no disabled
      state. */
  function JobState(j: TaskMonitor.JobInfo): (r: TaskMonitor.StateKind)
    ensures r != TaskMonitor.Disabled
    ensures r == TaskMonitor.Running <==> j.isRunning
    ensures r == TaskMonitor.Error <==> !j.isRunning && !AllSpace(j.err)
    ensures r == TaskMonitor.Success <==> !j.isRunning && AllSpace(j.err) && j.end.Some? && !AllSpace(j.log)
  {
    if j.isRunning then TaskMonitor.Running
    else if !AllSpace(j.err) then TaskMonitor.Error
    else if j.end.Some? && !AllSpace(j.log) then TaskMonitor.Success
    else TaskMonitor.Ready
  }

  /** The two monitors agree on every job that is not disabled. */
  lemma StatesAgree(j: TaskMonitor.JobInfo)
    ensures !j.isDisabled ==> JobState(j) == TaskMonitor.JobState(j).state
    ensures j.isDisabled ==> TaskMonitor.JobState(j).state == TaskMonitor.Disabled
  {
  }

  /** The state names __state returns. */
  function StateName(k: TaskMonitor.StateKind): string
  {
    match k
    case Ready => "READY"
    case Running => "RUNNING"
    case Error => "ERROR"
    case Success => "SUCCESS"
    case Disabled => "DISABLED"
  }

  /** __state_css: a colour for the four known names; any other value gives
      an empty list, so no colour. */
  function StateCss(state: string): (r: Css)
    ensures state !in {"READY", "RUNNING", "ERROR", "SUCCESS"} ==> r == CssList([])
  {
    if state == "READY" then CssScalar("grey")
    else if state == "RUNNING" then CssScalar("yellow")
    else if state == "ERROR" then CssScalar("red")
    else if state == "SUCCESS" then CssScalar("green")
    else CssList([])
  }

  /** The states this monitor produces get the colours of the newer
      monitor; a disabled state would get none. */
  lemma StateColours(k: TaskMonitor.StateKind)
    ensures k != TaskMonitor.Disabled ==> CssNames(StateCss(StateName(k))) == [TaskMonitor.StateCss(k)]
    ensures k == TaskMonitor.Disabled ==> CssNames(StateCss(StateName(k))) == []
  {
  }

  /** __duration: as in the newer monitor, but the seconds are not padded. */
  function Duration(start: Option<int>, end: Option<int>): (r: Option<string>)
    ensures r.Some? <==> start.Some? && end.Some?
    ensures r.Some? ==> TaskMonitor.ReadDuration(r.value) == Some(TaskMonitor.DeltaSeconds(start.value, end.value))
    ensures r.Some? && TaskMonitor.DeltaSeconds(start.value, end.value) >= 60 ==>
      var d := TaskMonitor.DeltaSeconds(start.value, end.value);
      r.value == NatToString(d / 60) + ":" + NatToString(d % 60) + " minutes"
    ensures r.Some? && TaskMonitor.DeltaSeconds(start.value, end.value) == 1 ==> r.value == "1 second"
    ensures r.Some? && TaskMonitor.DeltaSeconds(start.value, end.value) < 60 && TaskMonitor.DeltaSeconds(start.value, end.value) != 1 ==>
      r.value == NatToString(TaskMonitor.DeltaSeconds(start.value, end.value)) + " seconds"
  {
    if start.Some? && end.Some? then
      TaskMonitor.DurationRoundTrip(TaskMonitor.DeltaSeconds(start.value, end.value), false);
      Some(TaskMonitor.DurationText(TaskMonitor.DeltaSeconds(start.value, end.value), false))
    else None
  }

  /** __schedule_str: a number of seconds, or the interval and its time. */
  function ScheduleStr(every: Jobs.Interval, at: TaskMonitor.At): (r: string)
    ensures |r| > 6 && r[..6] == "every "
    ensures every.Seconds? ==> |r| > 14 && r[|r| - 8..] == " seconds"
    ensures every.Text? ==> |r| >= 10 + |every.s| && r[..10 + |every.s|] == "every " + every.s + " at "
  {
    if every.Seconds? then "every " + IntToString(every.n) + " seconds"
    else "every " + every.s + " at " + TaskMonitor.AtString(at)
  }

  /** For a number of seconds both monitors show the same text when the job
      has no timezone. */
  lemma RepeatScheduleAgrees(n: int, typeName: string, at: TaskMonitor.At)
    ensures ScheduleStr(Jobs.Seconds(n), at) == TaskMonitor.ScheduleCell(Jobs.Seconds(n), typeName, at, "").content
  {
    TaskMonitor.RepeatScheduleWithoutZone(n, typeName, at);
  }

  /** For a day rule at one time of day that ends in a visible character,
      both monitors show the same text when the job has no timezone. */
  lemma DailyScheduleAgrees(rule: string, typeName: string, time: string)
    requires time != [] && !IsSpace(time[|time| - 1])
    requires typeName != "OneTimeJob" && typeName != "NeverJob"
    ensures ScheduleStr(Jobs.Text(rule), TaskMonitor.AtText(time))
      == TaskMonitor.ScheduleCell(Jobs.Text(rule), typeName, TaskMonitor.AtText(time), "").content
  {
    var text := "every " + rule + " at " + time;
    assert text[|text| - 1] == time[|time| - 1];
    assert "every " + Jobs.IntervalString(Jobs.Text(rule)) + " at " + time + " " + "" == text + " ";
    StripOuterSpace(text);
  }

  /** __descrTD: the stripped text, cut to 30 characters and "...", with
      the whole stripped text as the title; no description is a plain "-"
      cell. */
  function DescrTd(d: Option<string>): (r: string)
    ensures d.None? ==> r == Td(Some(TaskMonitor.DescrCell(d).content), CssList([]), 1, 1)
    ensures d.Some? ==> var c := TaskMonitor.DescrCell(d);
      r == "<td title=\"" + c.title.value + "\">" + c.content + "</td>"
  {
    if d.None? then Td(Some("-"), CssList([]), 1, 1)
    else
      var t := Strip(d.value);
      "<td title=\"" + t + "\">" + (if |t| > 30 then t[..30] + "..." else t) + "</td>"
  }

  // ---------------------------------------------------------------------
  // The single-job page
  // ---------------------------------------------------------------------

  /** __show_one(n): the n-th job, or 'Nothing here' past the end. The route
      only matches non-negative numbers. */
  function ShowOne(n: nat, jobs: seq<TaskMonitor.JobInfo>): (r: Option<TaskMonitor.JobInfo>)
    ensures r.None? <==> n >= |jobs|
    ensures r.Some? ==> r.value == jobs[n]
  {
    if n >= |jobs| then None else Some(jobs[n])
  }
}
