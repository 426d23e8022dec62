# Flask_Production: scheduler and task monitor, modelled in Dafny

Flask_Production runs Python functions on a schedule inside a Flask application
and shows them on a web "task monitor". This project models the core of that
system and proves properties of the model:

- **Scheduling rules** (`jobs.py`): the named day rules (`RUNABLE_DAYS`), the
  end-of-month rules, the interval validators of the job classes, the next-run
  computation of `Job`, `OneTimeJob`, `RepeatJob` and `MonthlyJob`, `is_due`,
  and the readable `func_signature`.
- **The scheduler** (`sched.py`): the fluent builder (`every`, `at`,
  `strict_date`, `timezone`), job-class selection in `_create_job`, the id
  registry of `do`, `check`, `get_job_by_id` and the checks of `rerun`.
- **The job log** (`print_logger.py`): reset, the append-only run log with its
  CRLF normalisation, `start_capture`, `set_error` and the dictionary round trip.
- **The monitor's server side** (`plugins/task_monitor.py`, and the older
  read-only `plugins.py`): job state and its colour, duration text,
  description and schedule cells, the source line an error points at
  (`ERR_LINE`), the summary counters, the `NEXT_RUN` literal, and the checks
  of the two POST endpoints.
- **The HTML serialiser** (`plugins/html_templates.py`): `_TAG` with its
  deterministic attribute order, and `TD`/`TABLE` writing into the dictionary
  they are given.
- **The browser scripts** (`plugins/web/js/task.js`, `ctrl_panel.js`): padding
  and the countdown text, the load-time mode choice, the countdown tick, the
  confirmation-gated rerun and enable/disable requests, and the control
  panel's refresh countdown and click bindings.

Dates are proleptic Gregorian `(year, month, day)` triples with a day number
and an ISO weekday (`calendar.dfy`). Server times are integer timestamps in
seconds; browser times are integer milliseconds. Python string operations
the sources rely on (`strip`, `split`, `join`, `find`, `count`, `zfill`,
`replace('\r\n', '\n')`, `str(int)`) are defined in `text.dfy`, together with
what they guarantee. Whatever a page script does to the browser (timers, DOM
writes, prompts, alerts, requests, reloads) is recorded as a sequence of
`Browser.Effect` values rather than performed.

Files: `wrappers.dfy` (Option, Result), `text.dfy`, `calendar.dfy`,
`jobs.dfy`, `sched.dfy`, `print_logger.dfy`, `html_templates.dfy`,
`task_monitor.dfy`, `plugins.dfy`, `browser.dfy`, `task_page.dfy`,
`ctrl_panel.dfy`.

## Model

| member | source | states |
|---|---|---|
| Jobs.DayKindsPartition | flask_production/jobs.py:43-49 | every date is exactly one of business day, trading holiday or weekend day; "holiday" holds iff trading holiday or weekend |
| Jobs.RunsOn | flask_production/jobs.py:43-57 | a day rule holds on a date as `RUNABLE_DAYS` says; rules for weekdays, business days, trading holidays and the month-end weekday/business day hold only Monday to Friday, business-day rules never on a holiday, and the weekend rules only on Saturday or Sunday |
| Jobs.LastWeekdayOfMonth | flask_production/jobs.py:29-33 | the end-of-month weekday is a real date that is not a Saturday or Sunday |
| Jobs.IsEomWeekday | flask_production/jobs.py:29-33 | the loop stepping back from the month's last day over weekend days answers true exactly on the month's last weekday |
| Jobs.LastWeekdayIsLatest | flask_production/jobs.py:29-33 | the last weekday is the month's last day stepped back once per weekend day, and every day skipped is a weekend day |
| Jobs.BusinessBackSteps | flask_production/jobs.py:35-39 | the number of days the business-day loop steps back always exists: the day reached is a business day and every day before it is a holiday or weekend day |
| Jobs.IsEomBusinessday | flask_production/jobs.py:35-39 | the loop stepping back over holidays and weekend days terminates and answers true exactly on the month's last business day |
| Jobs.LastBusinessDayIsLatest | flask_production/jobs.py:35-39 | the last business day is not a holiday or weekend day, is not after the end of the month, and every later day of the month is a holiday or weekend day |
| Jobs.MonthDayOf | flask_production/jobs.py:285 | the monthly pattern yields a day of at most 99 read from a three- or four-character body ending in the suffix |
| Jobs.MonthlyIntervalExamples | flask_production/jobs.py:293-297 | the monthly validator takes 1 or 2 digits up to 31 with st/nd/rd/th in any case, suffix not checked against the number, and rejects 32nd, 123rd, st, 1 and numbers |
| Jobs.MonthlyExcludesOthers | flask_production/jobs.py:293-297 | a monthly interval is never a number, a day rule or a date, so the validators do not overlap |
| Jobs.IsValidMonthlyInterval | flask_production/jobs.py:293-297 | as written the monthly validator accepts exactly what the corrected one (days 1..31) accepts plus day 0 |
| Jobs.ParseIsoDate | flask_production/jobs.py:232-237 | a string the one-time validator accepts names a real date from year 1 |
| Jobs.IsValidOneTimeInterval | flask_production/jobs.py:232-237 | an accepted one-time interval is a text of 8 to 10 characters with a dash after the four-digit year |
| Jobs.OneTimeShape | flask_production/jobs.py:232-237 | a text strptime reads as `%Y-%m-%d` has 8 to 10 characters and a dash at position 4 |
| Jobs.FirstRunDayFrom | flask_production/jobs.py:123-125 | the day-by-day search stops, when some later day satisfies the rule, on the first such day |
| Jobs.DailyNextRun | flask_production/jobs.py:114-126 | a day-rule job's next run is today's slot when the rule holds today, it did not just run and now is before the slot plus the startup offset; otherwise the slot on the first later day the rule holds (this search needs such a day) |
| Jobs.DailyNextRunBounds | flask_production/jobs.py:114-126 | that next run is at the job's time on a day the rule holds, not before today, and later than now less the offset |
| Jobs.WeeklyRuleHoldsWithinAWeek | flask_production/jobs.py:43-57 | rules naming days of the week hold within seven days, so their search always stops |
| Jobs.OneTimeNextRun | flask_production/jobs.py:239-248 | a one-time job expires (0) after running or once now is past the target plus the offset in whole minutes; otherwise its next run is the target |
| Jobs.RepeatNextRun | flask_production/jobs.py:262-269 | BadScheduleError exactly for a non-number or non-positive interval; otherwise the previous next run (after a run) or now, plus the interval |
| Jobs.RepeatRunsDoNotDrift | flask_production/jobs.py:266-267 | after k runs the next run is the start plus k + 1 intervals |
| Jobs.MonthlyNextRunDate | flask_production/jobs.py:299-326 | the month-advancing method computes the monthly run date, its strict loop running at most once |
| Jobs.MonthlyRunDateSpec | flask_production/jobs.py:299-326 | an error exactly for day 0; otherwise the requested day (strict) or that day clamped to the month's end (not strict), in this month, the next, or (strict, short month) the one after |
| Jobs.MonthlyRunNotInPast | flask_production/jobs.py:308-315 | a monthly job is never scheduled before the current minute less the startup offset |
| Jobs.ZeroDayAcceptedThenFails | flask_production/jobs.py:294-297 | the validator as written accepts "0th" and scheduling that job then fails |
| Jobs.FixedMonthlyIntervalSchedules | flask_production/jobs.py:294-297 | with days limited to 1..31 every accepted monthly interval schedules successfully |
| Jobs.Job.constructor | flask_production/jobs.py:75-99 | a new job of any class whose validator, as written, accepts its interval (a MonthlyJob for "0th" included) holds its definition, is not running and has no next run yet |
| Jobs.Job.ScheduleNextRun | flask_production/jobs.py:114-126 | each job class sets its next run as its schedule_next_run computes it; a BadScheduleError, or the ValueError of a MonthlyJob for day 0, leaves it unchanged |
| Jobs.Job.IsDue | flask_production/jobs.py:250-252 | JobExpired for an expired one-time job; otherwise due iff now has reached the next run and the job is not running |
| Jobs.OneTimeJobRunsOnce | flask_production/jobs.py:245-252 | after its run a one-time job's due test raises JobExpired |
| Jobs.Shorten | flask_production/jobs.py:148 | a value's text longer than 6 characters becomes its first 6 and ".."; shorter texts are kept |
| Jobs.ReadableTrim | flask_production/jobs.py:140-148 | lists show "[..]", sets "(..)", dicts "{..}", anything else its shortened text |
| Jobs.ReadableTrimAsWritten | flask_production/jobs.py:140-148 | as written a dict shows its shortened text; every other value is shown as intended |
| Jobs.FuncSignature | flask_production/jobs.py:139-152 | the function name alone iff there are no keyword arguments; otherwise the name, `(`, and a closing `)` |
| Jobs.DictMarkerUnreachable | flask_production/jobs.py:145-146 | as written a dict shows the head of its text, not "{..}", so `f(x={'a': 1})` reads `f(x={'a': ..)` instead of `f(x={..})` |
| Jobs.FuncSignatureShape | flask_production/jobs.py:149-152 | the signature is the bare name without keyword arguments, else the name and the arguments in parentheses; every value is at most eight characters, and when no key or value holds a comma the arguments split at the commas into exactly the `k=v` texts, in order |
| Jobs.SignaturesAgreeWithoutDicts | flask_production/jobs.py:139-152 | the signature as written and the corrected one agree unless some argument is a dict |
| Scheduler.FirstAccepting | flask_production/sched.py:194-197 | the first external class, in registration order, whose validator accepts the interval |
| Scheduler.SelectClass | flask_production/sched.py:192-215 | an accepting external class always wins and is one that accepts; a built-in class is chosen only when no external class accepts; no class means no validator (NeverJob's included) accepts |
| Scheduler.BuiltinValidatorsDisjoint | flask_production/sched.py:199-213 | the built-in validators accept disjoint intervals |
| Scheduler.SelectBuiltin | flask_production/sched.py:199-213 | with no external class accepting it, an interval gets the built-in class whose validator accepts it, and only then |
| Scheduler.ClockText | flask_production/sched.py:190 | the default time is five characters with a colon in the middle |
| Scheduler.TaskScheduler.constructor | flask_production/sched.py:106-110 | no jobs, no external classes, builder at its defaults |
| Scheduler.TaskScheduler.ResetDefaults | flask_production/sched.py:113-118 | interval, time, strictness and calendar cleared, timezone back to the default, jobs untouched |
| Scheduler.TaskScheduler.RegisterExternalJobClass | flask_production/sched.py:121-124 | ValueError and no change for a class not derived from Job; otherwise appended |
| Scheduler.TaskScheduler.Every | flask_production/sched.py:131-138 | sets the interval and the calendar |
| Scheduler.TaskScheduler.StrictDate | flask_production/sched.py:144-152 | BadScheduleError and no change unless the interval is monthly and the argument a bool |
| Scheduler.TaskScheduler.At | flask_production/sched.py:154-162 | sets the time; with no interval yet the interval becomes "day" |
| Scheduler.TaskScheduler.Timezone | flask_production/sched.py:164-174 | BadScheduleError and no change for an unknown zone; otherwise sets it |
| Scheduler.TaskScheduler.FindExternal | flask_production/sched.py:194-197 | the loop over external classes finds the first accepting one |
| Scheduler.TaskScheduler.ChooseClass | flask_production/sched.py:194-216 | externals first, then RepeatJob, OneTimeJob, MonthlyJob, Job, NeverJob |
| Scheduler.TaskScheduler.CreateJob | flask_production/sched.py:181-232 | succeeds exactly when an interval is set, some class accepts it, a MonthlyJob has its strictness and a RepeatJob a positive interval; otherwise the missing-interval, "is not valid", strict-date or illegal-interval error with the builder unchanged; the job gets the next id, the selected class, the given or current time, its calendar or the scheduler's, and the builder is reset |
| Scheduler.CreatableBuiltin | flask_production/sched.py:199-216 | with no external class accepting it, a positive number of seconds, a date or a day rule always makes a job, a monthly interval only with its strictness, anything else only through NeverJob |
| Scheduler.TaskScheduler.Do | flask_production/sched.py:235-245 | appends the new job exactly when it can be created, its id being its position, keeping ids 0..n-1; the external classes are kept; the builder is reset after a created job and left as it was after an error |
| Scheduler.TaskScheduler.GetJobById | flask_production/sched.py:316-320 | the first job with the id, or None |
| Scheduler.LookupById | flask_production/sched.py:316-320 | with ids equal to positions, the lookup finds exactly the ids 0..n-1 |
| Scheduler.TaskScheduler.Rerun | flask_production/sched.py:322-330 | IndexError for an unknown id, RuntimeError for a running job, otherwise that job |
| Scheduler.TaskScheduler.Check | flask_production/sched.py:271-275 | the walk over a snapshot computes the specified runs and outcome |
| Scheduler.CheckFromSpec | flask_production/sched.py:271-275 | check runs exactly the due, not running jobs, in list order, up to the first expired one-time job whose exception it passes on |
| PrintLog.AppendedSpec | flask_production/print_logger.py:69-70 | a whitespace-only message adds nothing; any other adds its characters except each CR right before an LF |
| PrintLog.CapturedTextConcat | flask_production/print_logger.py:74-75 | the log of two runs of messages is the two logs one after the other |
| PrintLog.CapturedTextSnoc | flask_production/print_logger.py:74-75 | one more message only appends to the log |
| PrintLog.CapturedTextIgnoresBlank | flask_production/print_logger.py:69 | dropping a blank message changes nothing |
| PrintLog.PrintLogger.constructor | flask_production/print_logger.py:31-34 | a new logger is empty |
| PrintLog.PrintLogger.Reset | flask_production/print_logger.py:56-62 | log and error empty, start and end unset |
| PrintLog.PrintLogger.LogCallback | flask_production/print_logger.py:64-75 | a blank message leaves the log; any other is appended with CRLF made LF |
| PrintLog.PrintLogger.StartCapture | flask_production/print_logger.py:77-88 | resets, sets the start, logs every message in order, and sets the end unless the run raised |
| PrintLog.PrintLogger.SetError | flask_production/print_logger.py:90-93 | records the traceback and changes nothing else |
| PrintLog.PrintLogger.ToDict | flask_production/print_logger.py:95-102 | the four fields |
| PrintLog.PrintLogger.FromDict | flask_production/print_logger.py:104-110 | overwrites all four fields when the record has a start; no change otherwise |
| PrintLog.SaveAndRestore | flask_production/print_logger.py:95-110 | saving and restoring copies a started log exactly and leaves the target alone otherwise |
| HtmlTemplates.CssNames | flask_production/plugins/html_templates.py:33-34 | a single css value becomes a one-element list |
| HtmlTemplates.SetAttrSpec | flask_production/plugins/html_templates.py:70-71 | dictionary assignment: the key maps to the value, other keys keep theirs, keys stay unique, a new key goes last |
| HtmlTemplates.Tag | flask_production/plugins/html_templates.py:31-36 | a tag is `<t `, the `k='v'` attributes in dictionary order, the class attribute last, `>`, content, `</t>` |
| HtmlTemplates.Th | flask_production/plugins/html_templates.py:60-61 | `<th data-sort-default>h</th>` for a default-sort column, `<th >h</th>` otherwise |
| HtmlTemplates.AttrDict.Set | flask_production/plugins/html_templates.py:70 | assignment into the caller's dictionary |
| HtmlTemplates.Td | flask_production/plugins/html_templates.py:69-72 | writes colspan and rowspan into the given dictionary, then renders it; no content renders "-" |
| HtmlTemplates.TdAttributes | flask_production/plugins/html_templates.py:69-72 | after TD the dictionary holds the last spans whatever it held; a fresh one holds exactly colspan then rowspan |
| HtmlTemplates.Table | flask_production/plugins/html_templates.py:56-58 | writes the id into the given dictionary, then renders head and body |
| ReadOnlyMonitor.Div | flask_production/plugins.py:27-33 | no class attribute when there are no class names |
| ReadOnlyMonitor.Table | flask_production/plugins.py:35-41 | no class attribute when there are no class names |
| ReadOnlyMonitor.DivAgrees | flask_production/plugins.py:27-33 | the old DIV equals the new one exactly when there are class names |
| ReadOnlyMonitor.CodeAgrees | flask_production/plugins.py:66-69 | both monitors write the same code block |
| ReadOnlyMonitor.JobState | flask_production/plugins.py:228-236 | RUNNING, then ERROR for a non-blank traceback, then SUCCESS for a finished run that printed, else READY; never DISABLED |
| ReadOnlyMonitor.StatesAgree | flask_production/plugins.py:228-236 | the two monitors agree on every job that is not disabled |
| ReadOnlyMonitor.StateCss | flask_production/plugins.py:238-248 | any state name other than the four gets an empty class list |
| ReadOnlyMonitor.StateColours | flask_production/plugins.py:238-248 | every state the old monitor can show gets the same colour class as in the newer monitor; DISABLED, which it never shows, gets none |
| ReadOnlyMonitor.Duration | flask_production/plugins.py:250-262 | no text without start and end; otherwise `m:s minutes` with the seconds unpadded from a minute on, `1 second`, or `n seconds`, a text that reads back as the elapsed seconds |
| ReadOnlyMonitor.RepeatScheduleAgrees | flask_production/plugins.py:264-265 | "every N seconds", as the newer monitor shows it without a timezone |
| ReadOnlyMonitor.DailyScheduleAgrees | flask_production/plugins.py:264-265 | "every X at Y" for a rule at one time, as the newer monitor shows it without a timezone |
| ReadOnlyMonitor.ScheduleStr | flask_production/plugins.py:264-265 | the text starts with "every "; a number of seconds ends in " seconds", a named interval is followed by " at " |
| ReadOnlyMonitor.DescrTd | flask_production/plugins.py:270-277 | a plain `-` cell without a description; otherwise a cell with the same truncated description and title as the newer monitor's |
| ReadOnlyMonitor.ShowOne | flask_production/plugins.py:323-326 | no job (the "Nothing here" page) exactly for n at or past the number of jobs; otherwise the n-th job |
| TaskMonitor.JobState | flask_production/plugins/task_monitor.py:92-109 | DISABLED over everything, then RUNNING, then ERROR for a non-blank traceback, then SUCCESS for a finished run that printed, else READY, with the matching colour |
| TaskMonitor.ErrorTitle | flask_production/plugins/task_monitor.py:102-105 | an ERROR's title is the non-empty last line of the stripped traceback |
| TaskMonitor.DeltaSeconds | flask_production/plugins/task_monitor.py:114 | timedelta.seconds is below a day |
| TaskMonitor.Duration | flask_production/plugins/task_monitor.py:111-123 | no text without start and end; otherwise `m:ss minutes` with the seconds zero-filled to two digits from a minute on, `1 second`, or `n seconds`, a text that reads back as the elapsed seconds |
| TaskMonitor.DurationText | flask_production/plugins/task_monitor.py:115-122 | from a minute on the text ends in " minutes"; it is "1 second" exactly for one second; otherwise it ends in " seconds" |
| TaskMonitor.DurationRoundTrip | flask_production/plugins/task_monitor.py:115-122 | "m:ss minutes", "1 second" and "n seconds" each read back as the seconds they were made from |
| TaskMonitor.PaddingDiffers | flask_production/plugins/task_monitor.py:118 | the two monitors' minute texts differ exactly when the seconds are below 10 |
| TaskMonitor.DescrCell | flask_production/plugins/task_monitor.py:168-172 | "-" for none; otherwise the stripped text, cut to 30 characters and "..." when longer, with the whole text as title |
| TaskMonitor.ScheduleCell | flask_production/plugins/task_monitor.py:130-158 | "every N seconds", "on D at T" for a one-time job, "on-demand" for NeverJob, otherwise "every X at" the times, each stripped and followed by the zone label; five or more times are shown as the first three, ", ..." and the last, with the full schedule as title, and only then is there a title |
| TaskMonitor.RepeatScheduleWithoutZone | flask_production/plugins/task_monitor.py:135-137 | a repeating job without a timezone reads "every N seconds" |
| TaskMonitor.LineAnswer | flask_production/plugins/task_monitor.py:177-180 | a non-blank line whose stripped text occurs in the source gives the number of line breaks before its first occurrence; otherwise -1 |
| TaskMonitor.SrcErrLine | flask_production/plugins/task_monitor.py:174-181 | the loop with its early return computes the error line |
| TaskMonitor.ErrLineSpec | flask_production/plugins/task_monitor.py:174-181 | -1 exactly when no traceback line occurs in the source; otherwise the line breaks before the first matching line's text, within [0, line breaks of the source] |
| TaskMonitor.FirstMatch | flask_production/plugins/task_monitor.py:176-180 | the search over the lines stops at the first one that matches |
| TaskMonitor.GetSummary | flask_production/plugins/task_monitor.py:189-211 | "Nothing here" iff no jobs; count is the number of jobs, errors and running count those states, errors + running ≤ count, one detail per job |
| TaskMonitor.NextRunLiteral | flask_production/plugins/task_monitor.py:338-342 | "Disabled" for a disabled job, else the next run's timestamp, else "Never" |
| TaskMonitor.RerunJob | flask_production/plugins/task_monitor.py:363-381 | a bad token is refused and rerun not called; then a missing or non-int id is "Invalid input"; otherwise success unless rerun raises, whose message is returned |
| TaskMonitor.EnableDisableAsWritten | flask_production/plugins/task_monitor.py:384-408 | as written the job is switched whenever the id is a known int and "disable" is present, token or not, the reply then being success or "Action blocked"; a missing or non-int id is "Invalid input", an unknown id "Job not found" and a missing "disable" the KeyError text, whatever the token |
| TaskMonitor.EnableDisableDiffersOnlyOnToken | flask_production/plugins/task_monitor.py:388-393 | the corrected handler agrees with the one as written whenever the token is right; with a wrong token it switches nothing, and the one as written never answers success |
| TaskMonitor.EnableDisableIgnoresToken | flask_production/plugins/task_monitor.py:388-391 | a request without a token disables the job and is answered "Action blocked" |
| TaskMonitor.FloatFields | flask_production/plugins/task_monitor.py:390-397 | a float "disable" of 1.0 equals True and disables the job; a float id is not an int and is refused as invalid input |
| TaskMonitor.EnableDisable | flask_production/plugins/task_monitor.py:384-408 | a failed token check ends the request; otherwise a known id is switched as asked and success returned |
| TaskPage.Pad | flask_production/plugins/web/js/task.js:1-5 | the loop prepends zeros up to the width (2 when none), never truncating, the digits kept as the suffix |
| TaskPage.Pad2Digits | flask_production/plugins/web/js/task.js:1-5 | one digit gets a leading zero, two are kept |
| TaskPage.CountdownStr | flask_production/plugins/web/js/task.js:7-13 | the method computes the countdown text of the milliseconds to go |
| TaskPage.CountdownFields | flask_production/plugins/web/js/task.js:7-13 | hours, minutes below 60 and seconds below 60 that add up to the whole seconds, hours not wrapped |
| TaskPage.CountdownRoundTrip | flask_production/plugins/web/js/task.js:7-13 | the countdown text reads back as the whole seconds to go |
| TaskPage.LoadMode | flask_production/plugins/web/js/task.js:56-70 | exactly one mode: reload when running, else a label for a non-numeric NEXT_RUN, else the countdown |
| TaskPage.ServerChoosesMode | flask_production/plugins/task_monitor.py:338-346 | what the server writes selects the mode: running reloads, disabled or no next run shows "Disabled"/"Never", otherwise a countdown |
| TaskPage.TaskPageController.Load | flask_production/plugins/web/js/task.js:53-77 | the load handler's effects, the interval alive only in countdown mode, the label written only in label mode |
| TaskPage.HighlightOnce | flask_production/plugins/web/js/task.js:72-76 | one highlight range from and to ERR_LINE when it is not negative, none otherwise; one timer only in reload mode |
| TaskPage.TaskPageController.Tick | flask_production/plugins/web/js/task.js:61-69 | when the time to run is up the interval is cleared before one reload a second later; otherwise the countdown of the time to run is shown; at most one timer is alive |
| TaskPage.TaskPageController.Expire | flask_production/plugins/web/js/task.js:63-65 | clear the interval, then one reload |
| TaskPage.TaskPageController.ShowRemaining | flask_production/plugins/web/js/task.js:67 | writes the countdown text |
| TaskPage.ReplyEffects | flask_production/plugins/web/js/task.js:21-28 | a reply ends in exactly one reload (success) or one alert: "Error: " and the reply's error when it is non-empty, "Error: " and the fallback when it is empty, and the failure message itself when the request failed |
| TaskPage.RerunTrigger | flask_production/plugins/web/js/task.js:14-32 | the rerun is posted once, with id and token, iff the typed text is the job name; otherwise "Rerun aborted"; reload only on success, otherwise the reply's alert with "Rerun failed" as fallback |
| TaskPage.EnableDisable | flask_production/plugins/web/js/task.js:33-52 | the prompt names the action; the request is posted once iff the typed text is the job name; otherwise "Action aborted"; after the post, the reply's reload or alert with "Action failed" as fallback |
| TaskPage.RerunRequestAccepted | flask_production/plugins/web/js/task.js:17-19 | the page's rerun request passes the server's checks and reloads iff the rerun starts |
| TaskPage.EnableDisableRequestAccepted | flask_production/plugins/web/js/task.js:37-39 | the page's request switches a known job as the button asked |
| CtrlPanel.Step | flask_production/plugins/web/js/ctrl_panel.js:3-9 | a positive count is decremented and shown; otherwise the interval is cleared, then the page reloaded |
| CtrlPanel.CountsDown | flask_production/plugins/web/js/ctrl_panel.js:3-6 | from n, each of the first k <= n ticks shows the count one lower, and the count never goes below 0 |
| CtrlPanel.ReloadsOnce | flask_production/plugins/web/js/ctrl_panel.js:2-10 | from n the interval is cleared and the page reloaded on tick n + 1, exactly once; later ticks change nothing |
| CtrlPanel.SelectedSpec | flask_production/plugins/web/js/ctrl_panel.js:11 | exactly the monitor blocks not marked no-page are selected |
| CtrlPanel.SelectedAppend | flask_production/plugins/web/js/ctrl_panel.js:11 | selection keeps document order |
| CtrlPanel.RefreshCountdown.Load | flask_production/plugins/web/js/ctrl_panel.js:1-16 | starts the one-second interval and binds one click per selected block, in order |
| CtrlPanel.RefreshCountdown.Tick | flask_production/plugins/web/js/ctrl_panel.js:2-10 | one tick is Step |
| CtrlPanel.RefreshCountdown.Click | flask_production/plugins/web/js/ctrl_panel.js:12-14 | only a bound block navigates, to its data-url |
| Text.StripSpec | flask_production/plugins/task_monitor.py:102 | `s.strip() == ''` iff every character is whitespace; the stripped text is a slice with no whitespace at either end |
| Text.ReplaceCRLFDropsCR | flask_production/print_logger.py:70 | the left-to-right CRLF replacement drops exactly the CRs right before an LF |
| Text.ParseZeroPad | flask_production/plugins/task_monitor.py:118 | a zero-filled number reads back as the number |
| Text.FindFrom | flask_production/plugins/task_monitor.py:178 | find gives the lowest position where the text occurs, or -1 when it occurs nowhere |
| Calendar.EndOfMonth | flask_production/jobs.py:22-23 | the end of the month is a real date in the same month, not before the day |
| Calendar.ShortMonthThenLong | flask_production/jobs.py:322-323 | a month with fewer than 31 days is followed by one with 31 |

## Left out

- Threading: `AsyncJobWrapper`, the thread `rerun` starts, the `start`/`join`/`sleep` loop and the logger's lock. The logger is modelled sequentially.
- Running a job: `Job.run`, stdout capture and `traceback.format_exc`. The printed messages, the traceback and whether the run raised are inputs.
- Wall-clock time and floats: `time.time()`, `datetime.now`, `time.mktime` and `strftime` are replaced by whole-second timestamps and given moments. Sub-second parts, daylight saving and timezone offsets are not modelled (local time is day number × 86400 plus the clock).
- `tz.gettz` is an input (`known`); the `[%Z]` label of the schedule cell is an input string.
- The holiday calendar is an abstract set of dates; `hols.py` is not part of this model.
- Browser effects are records: DOM lookups, `scrollTo`, `fetch` and JSON parsing, `prompt`, `alert`, reloads and highlight.js are not performed.
- TaskPage.NumericText: JavaScript's `isNaN` also reads texts such as " 7 ", "1.5", "-3", "1e3", "0x1A" and "Infinity" as numbers; the model reads only the empty text and decimal digits. The server only ever writes `"Never"`, `"Disabled"` or a timestamp into `NEXT_RUN` (plugins/task_monitor.py:338-342), so the page's mode choice is the same for everything it is given.
- Persistence (`state/`), `plugins/ctrl_panel.py`, `plugins/consolidator.py`, `script_func.py`, Flask/CherryPy routing and `HTML` page wrappers are not part of this model. The show-all and show-one page assembly is not modelled beyond the cells and values listed above.
- `__timestr_to_12hr`, `__date_fmt` and `__date_sort_attr` of the monitors: date formatting is not modelled.
- HTML escaping of `<` and `>` in job names, and `repr` of lists inside `"{}".format`, beyond the quoted list text of `TaskMonitor.AtString`.
- The plain HTML wrappers `HtmlTemplates.H`, `Div`, `Tr`, `Script`, `Code` and `ReadOnlyMonitor.H`, `Td`, `Code` are modelled as functions; only `Tag`, `Td`, `Table`, `Th`, `ReadOnlyMonitor.DescrTd`, `ReadOnlyMonitor.ScheduleStr` and the old/new agreements carry proved properties.
- The calls sched.py makes into jobs.py do not match jobs.py's signatures (`time_string=`, `NeverJob`, `init(tzname=…, startup_grace_mins=…)`). Each file is modelled against its own text; no property joins the scheduler to the job classes. `NeverJob` is not defined in jobs.py, so its validator is an input (`neverAccepts`).
- Scheduler.TaskScheduler.CreateJob: MonthlyJob selection uses the corrected monthly validator (days 1..31). Of the job's `init` call only the BadScheduleError of a RepeatJob with a non-positive interval is kept (`IllegalRepeatInterval`, raised by `schedule_next_run`); the rest of `init` and the callback registration are not modelled.
- Scheduler.TaskScheduler.StrictDate: checks the interval with the corrected monthly validator as well.
- Scheduler.ClockText: states only the shape of `"%H:%M"` (five characters, colon in the middle), not its digits.
- Jobs.Job.ScheduleNextRun, Jobs.DailyNextRun, Jobs.FirstRunDayFrom: unless today's slot is taken, require that some later day satisfies the day rule, because the search in `schedule_next_run` never ends otherwise (for example "trading-holiday" with an empty calendar).
- Jobs.MonthDayOf: its ensures bounds the day by 99; the exact accepted texts are stated by `Jobs.MonthlyIntervalExamples`.
- Jobs.Job.IsDue: "now" is a whole-second timestamp.
- Jobs.Job.constructor: takes the time of day as a parsed `Clock` (hour below 24, minute below 60). The source stores any `at` text, and `schedule_next_run` of every class then splits it and converts it with `int()` and `datetime`/`replace`, which raises ValueError for texts such as "25:00", "9:75" or "noon"; that error path is not modelled.
- RepeatJob with a float interval is not modelled; intervals are integers.
- Jobs.MonthDayOf, Jobs.ParseIsoDate: digits are ASCII `0`-`9` and case folding is ASCII only; Python's `\d` also matches other Unicode digits and `re.IGNORECASE` also folds characters such as 'ſ' and 'K' (Kelvin sign).
- PrintLog.PrintLogger.LogCallback: the copy of each message sent to the logger and stderr is not modelled; only the run log is.
- HtmlTemplates.CssNames: a css value that is a set is modelled as a list in a fixed order; Python iterates a set in an unspecified order, so the class attribute's order is not modelled.

## Findings

| source | as written | input that shows it | evidently intended | confidence | as-written member | corrected member |
|---|---|---|---|---|---|---|
| flask_production/jobs.py:294-297 | the monthly validator accepts day 0 | `.every('0th')` is accepted, then `schedule_next_run` fails on `replace(day=0)` | only days 1 to 31 are monthly intervals | not executed | Jobs.ZeroDayAcceptedThenFails | Jobs.FixedMonthlyIntervalSchedules |
| flask_production/jobs.py:145-146 | `readable_trim` tests `list` twice, so "{..}" is never produced | keyword argument `{'a': 1}` is shown as `{'a': ..` | a dict is shown as "{..}" | not executed | Jobs.DictMarkerUnreachable | Jobs.ReadableTrim |
| flask_production/plugins/task_monitor.py:388-391 | a failed token check only sets the error; the id check is an `if`, not an `elif`, so the job is still switched | POST `{"jobid": 0, "disable": true}` without `api_token` disables job 0 and replies "Action blocked" | a failed token check ends the request, as in `__rerun_job` | not executed | TaskMonitor.EnableDisableIgnoresToken | TaskMonitor.EnableDisable |
