/** The run log of a job (flask_production/print_logger.py): a buffer of the
    text the job printed, the error traceback, and the start and end times
    of the run, with a dictionary form for saving and restoring it. */
module PrintLog {
  import opened Wrappers
  import opened Text

  /** The dictionary of to_dict: log, err, start and end. Times are
      timestamps. */
  datatype LogRecord = LogRecord(log: string, err: string, start: Option<int>, end: Option<int>)

  /** The run log a capture builds from the messages printed in it: every
      message that is not blank, with its "\r\n" pairs made "\n", in order. */
  function CapturedText(msgs: seq<string>): string
  {
    Concat(Pieces(msgs))
  }

  /** What each message adds, in order. */
  function Pieces(msgs: seq<string>): seq<string>
  {
    seq(|msgs|, i requires 0 <= i < |msgs| => Appended(msgs[i]))
  }

  /** The pieces one after the other. */
  function Concat(parts: seq<string>): string
  {
    if parts == [] then "" else Concat(parts[..|parts| - 1]) + parts[|parts| - 1]
  }

  /** What _log_callback appends for one message (`msg.strip() == ''` is
      AllSpace(msg), by StripSpec). */
  function Appended(msg: string): string
  {
    if AllSpace(msg) then "" else ReplaceCRLF(msg)
  }

  /** A message that is all whitespace adds nothing; any other adds its
      characters except each carriage return right before a line feed. */
  lemma AppendedSpec(msg: string)
    ensures AllSpace(msg) ==> Appended(msg) == ""
    ensures !AllSpace(msg) ==> Appended(msg) == DropCRBeforeLF(msg)
  {
    StripSpec(msg);
    ReplaceCRLFDropsCR(msg);
  }

  /** Capturing two runs of messages one after the other gives the two logs
      one after the other. */
  lemma CapturedTextConcat(a: seq<string>, b: seq<string>)
    ensures CapturedText(a + b) == CapturedText(a) + CapturedText(b)
  {
    assert Pieces(a + b) == Pieces(a) + Pieces(b);
    ConcatAppend(Pieces(a), Pieces(b));
  }

  lemma {:induction false} ConcatAppend(a: seq<string>, b: seq<string>)
    ensures Concat(a + b) == Concat(a) + Concat(b)
    decreases |b|
  {
    if b == [] {
      assert a + b == a;
    } else {
      var b', last := b[..|b| - 1], b[|b| - 1];
      assert (a + b)[..|a + b| - 1] == a + b';
      assert (a + b)[|a + b| - 1] == last;
      ConcatAppend(a, b');
      var x, y := Concat(a), Concat(b');
      assert x + y + last == x + (y + last);
    }
  }

  /** One more message appends what it adds. */
  lemma CapturedTextSnoc(msgs: seq<string>, msg: string)
    ensures CapturedText(msgs + [msg]) == CapturedText(msgs) + Appended(msg)
  {
    CapturedTextConcat(msgs, [msg]);
    CapturedTextSingle(msg);
  }

  /** Blank messages leave no trace: dropping them changes nothing. */
  lemma {:induction false} CapturedTextIgnoresBlank(a: seq<string>, blank: string, b: seq<string>)
    requires AllSpace(blank)
    ensures CapturedText(a + [blank] + b) == CapturedText(a + b)
  {
    CapturedTextConcat(a + [blank], b);
    CapturedTextConcat(a, [blank]);
    CapturedTextConcat(a, b);
    CapturedTextSingle(blank);
  }

  lemma CapturedTextSingle(msg: string)
    ensures CapturedText([msg]) == Appended(msg)
  {
    var p := [Appended(msg)];
    assert Pieces([msg]) == p;
    assert p[..0] == [];
    assert Concat(p) == Concat([]) + Appended(msg);
  }

  /** _PrintLogger: the four fields its methods update. */
  class PrintLogger {
    var runLog: string
    var errLog: string
    var startedAt: Option<int>
    var endedAt: Option<int>

    function State(): LogRecord
      reads this
    {
      LogRecord(runLog, errLog, startedAt, endedAt)
    }

    constructor ()
      ensures State() == LogRecord("", "", None, None)
    {
      runLog := "";
      errLog := "";
      startedAt := None;
      endedAt := None;
    }

    /** _reset: clears the previous run. */
    method Reset()
      modifies this
      ensures State() == LogRecord("", "", None, None)
    {
      runLog := "";
      errLog := "";
      startedAt := None;
      endedAt := None;
    }

    /** _log_callback: a blank message changes nothing; any other is
      appended with its "\r\n" pairs made "\n". */
    method LogCallback(msg: string)
      modifies this`runLog
      ensures IsBlank(msg) ==> runLog == old(runLog)
      ensures !IsBlank(msg) ==> runLog == old(runLog) + ReplaceCRLF(msg)
      ensures runLog == old(runLog) + Appended(msg)
    {
      StripSpec(msg);
      if Strip(msg) == "" {
        return;
      }
      var normalised := ReplaceCRLF(msg);
      runLog := runLog + normalised;
    }

    /** start_capture around a run that prints `msgs`: resets, records the
      start, logs every message, and records the end unless the run raised
      out of the capture. */
    method StartCapture(start: int, msgs: seq<string>, raised: bool, end: int)
      modifies this
      ensures runLog == CapturedText(msgs)
      ensures errLog == "" && startedAt == Some(start)
      ensures endedAt == if raised then None else Some(end)
    {
      Reset();
      startedAt := Some(start);
      var k := 0;
      while k < |msgs|
        invariant 0 <= k <= |msgs|
        invariant runLog == CapturedText(msgs[..k])
        invariant errLog == "" && startedAt == Some(start) && endedAt == None
        decreases |msgs| - k
      {
        LogCallback(msgs[k]);
        assert msgs[..k + 1] == msgs[..k] + [msgs[k]];
        CapturedTextSnoc(msgs[..k], msgs[k]);
        k := k + 1;
      }
      assert msgs[..k] == msgs;
      if !raised {
        endedAt := Some(end);
      }
    }

    /** set_error: records the traceback and nothing else. */
    method SetError(traceback: string)
      modifies this`errLog
      ensures errLog == traceback
    {
      errLog := traceback;
    }

    /** to_dict */
    method ToDict() returns (d: LogRecord)
      ensures d == State()
    {
      d := LogRecord(runLog, errLog, startedAt, endedAt);
    }

    /** from_dict: overwrites all four fields when the record has a start,
      and changes nothing otherwise. */
    method FromDict(d: LogRecord)
      modifies this
      ensures d.start.Some? ==> State() == d
      ensures d.start.None? ==> State() == old(State())
    {
      if d.start.Some? {
        runLog := d.log;
        errLog := d.err;
        startedAt := d.start;
        endedAt := d.end;
      }
    }
  }

  /** Saving one log and restoring it into another copies it exactly when
      the run had started, and leaves the target as it was otherwise. */
  method SaveAndRestore(src: PrintLogger, dst: PrintLogger)
    modifies dst
    ensures src.startedAt.Some? ==> dst.State() == src.State()
    ensures src.startedAt.None? ==> dst.State() == old(dst.State())
  {
    var d := src.ToDict();
    dst.FromDict(d);
  }
}
