/** What the monitor pages do to the browser, recorded rather than performed:
    timers, DOM writes, dialogs, requests and navigation. A page controller
    is modelled by the sequence of effects it issues, in order. */
module Browser {

  /** A value the server writes into the page's script as a literal. */
  datatype JsValue = JsNumber(n: int) | JsString(s: string)

  /** The fields of a JSON request body; `JOther` stands for null, lists
      and objects. */
  datatype Json = JBool(b: bool) | JInt(i: int) | JFloat(r: real) | JStr(s: string) | JOther

  /** What a delayed callback does when it fires. */
  datatype TimedAction = ReloadPage

  datatype Effect =
    | SetTimeout(delayMs: int, action: TimedAction)
    | SetInterval(periodMs: int)
    | ClearInterval
    | WriteText(elementId: string, text: string)
    | ScrollLogsToBottom
    | HighlightLines(start: int, end: int)
    | Prompt(message: string)
    | Alert(message: string)
    | Post(url: string, body: map<string, Json>)
    | Reload
    | BindClick(url: string)
    | Navigate(url: string)

  /** The number of delayed callbacks among the effects. */
  function TimeoutCount(effects: seq<Effect>): nat
  {
    if effects == [] then 0
    else TimeoutCount(effects[..|effects| - 1]) + (if effects[|effects| - 1].SetTimeout? then 1 else 0)
  }

  lemma {:induction false} TimeoutCountAppend(a: seq<Effect>, b: seq<Effect>)
    ensures TimeoutCount(a + b) == TimeoutCount(a) + TimeoutCount(b)
    decreases |b|
  {
    if b == [] {
      assert a + b == a;
    } else {
      var b' := b[..|b| - 1];
      assert (a + b)[..|a + b| - 1] == a + b';
      assert (a + b)[|a + b| - 1] == b[|b| - 1];
      TimeoutCountAppend(a, b');
    }
  }
}
