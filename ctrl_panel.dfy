/** The script of the control panel (flask_production/plugins/web/js/ctrl_panel.js):
    a one-counter countdown that shows the seconds left and reloads the page
    when it runs out, and the click binding of the monitor blocks that have
    a page of their own. Everything it does to the browser is recorded as an
    Effect. */
module CtrlPanel {
  import opened Text
  import opened Browser

  /** The countdown: COUNT_DOWN, whether the interval is still alive, and
      the effects so far. */
  datatype Panel = Panel(countDown: int, live: bool, effects: seq<Effect>)

  /** The text the refresh message shows. */
  function Shows(n: int): Effect
  {
    WriteText("refresh-msg", IntToString(n))
  }

  /** One interval tick: a positive count is decremented and shown;
      otherwise the interval is cleared and then the page reloaded. */
  function Step(p: Panel): (q: Panel)
    requires p.live
    ensures p.countDown > 0 ==> q.live && q.countDown == p.countDown - 1 && q.effects == p.effects + [Shows(q.countDown)]
    ensures p.countDown <= 0 ==> !q.live && q.countDown == p.countDown && q.effects == p.effects + [ClearInterval, Reload]
  {
    if p.countDown > 0 then Panel(p.countDown - 1, true, p.effects + [Shows(p.countDown - 1)])
    else Panel(p.countDown, false, p.effects + [ClearInterval, Reload])
  }

  /** `k` seconds of the interval: once it is cleared no tick runs. */
  function Run(p: Panel, k: nat): Panel
    decreases k
  {
    if k == 0 || !p.live then p else Run(Step(p), k - 1)
  }

  /** The values a countdown from `n` shows in its first `k` ticks: n-1,
      n-2, ..., n-k. */
  function Shown(n: int, k: nat): seq<Effect>
  {
    seq(k, i => Shows(n - 1 - i))
  }

  /** For `k` ticks up to the start value, each tick takes one off the count
      and shows the new value; the count does not go below zero. */
  lemma {:induction false} CountsDown(n: int, k: nat, e: seq<Effect>)
    requires k <= n
    ensures Run(Panel(n, true, e), k) == Panel(n - k, true, e + Shown(n, k))
    ensures Run(Panel(n, true, e), k).countDown >= 0
    decreases k
  {
    if k > 0 {
      var w := Shows(n - 1);
      var e' := e + [w];
      OneTick(n, e);
      CountsDown(n - 1, k - 1, e');
      ShownCons(n, k, e);
    }
  }

  lemma OneTick(n: int, e: seq<Effect>)
    requires n > 0
    ensures Step(Panel(n, true, e)) == Panel(n - 1, true, e + [Shows(n - 1)])
  {
  }

  lemma ShownCons(n: int, k: nat, e: seq<Effect>)
    requires k > 0
    ensures e + [Shows(n - 1)] + Shown(n - 1, k - 1) == e + Shown(n, k)
  {
    var a := [Shows(n - 1)] + Shown(n - 1, k - 1);
    forall i | 0 <= i < k
      ensures a[i] == Shown(n, k)[i]
    {
      if i > 0 {
        assert a[i] == Shown(n - 1, k - 1)[i - 1];
      }
    }
    assert a == Shown(n, k);
  }

  /** From a count of n the page is reloaded on tick n + 1 (on the first
      tick when n is not positive), after the interval is cleared; ticks
      after that do nothing, so the reload is asked for exactly once. */
  lemma {:induction false} ReloadsOnce(n: int, extra: nat, e: seq<Effect>)
    ensures var shown := if n > 0 then n else 0;
      Run(Panel(n, true, e), shown + 1 + extra)
        == Panel(if n > 0 then 0 else n, false, e + Shown(n, shown) + [ClearInterval, Reload])
  {
    var shown := if n > 0 then n else 0;
    if n > 0 {
      CountsDown(n, n, e);
      RunSplit(Panel(n, true, e), n, 1 + extra);
    }
    var last := Panel(if n > 0 then 0 else n, true, e + Shown(n, shown));
    assert Run(last, 1 + extra) == Run(Step(last), extra);
    StoppedStays(Step(last), extra);
  }

  /** Ticks run one after the other. */
  lemma {:induction false} RunSplit(p: Panel, a: nat, b: nat)
    ensures Run(p, a + b) == Run(Run(p, a), b)
    decreases a
  {
    if a > 0 && p.live {
      RunSplit(Step(p), a - 1, b);
    } else if a > 0 {
      StoppedStays(p, b);
      StoppedStays(p, a + b);
    }
  }

  /** A cleared interval never ticks again. */
  lemma StoppedStays(p: Panel, k: nat)
    requires !p.live
    ensures Run(p, k) == p
  {
  }

  /** A block of the panel: its classes and its data-url. */
  datatype Block = Block(classes: set<string>, url: string)

  /** `.monitor-block:not(.no-page)` */
  predicate HasPage(b: Block)
  {
    "monitor-block" in b.classes && "no-page" !in b.classes
  }

  /** document.querySelectorAll: the matching blocks in document order. */
  function Selected(blocks: seq<Block>): seq<Block>
  {
    if blocks == [] then []
    else Selected(blocks[..|blocks| - 1]) + (if HasPage(blocks[|blocks| - 1]) then [blocks[|blocks| - 1]] else [])
  }

  /** Exactly the blocks with a page are selected. */
  lemma {:induction false} SelectedSpec(blocks: seq<Block>)
    ensures forall b :: b in Selected(blocks) <==> b in blocks && HasPage(b)
    ensures |Selected(blocks)| <= |blocks|
  {
    if blocks != [] {
      var init := blocks[..|blocks| - 1];
      SelectedSpec(init);
      assert blocks == init + [blocks[|blocks| - 1]];
    }
  }

  /** Selection keeps document order: selecting from two runs of blocks is
      selecting from each, one after the other. */
  lemma {:induction false} SelectedAppend(a: seq<Block>, b: seq<Block>)
    ensures Selected(a + b) == Selected(a) + Selected(b)
    decreases |b|
  {
    if b == [] {
      assert a + b == a;
    } else {
      var b' := b[..|b| - 1];
      assert (a + b)[..|a + b| - 1] == a + b';
      assert (a + b)[|a + b| - 1] == b[|b| - 1];
      SelectedAppend(a, b');
    }
  }

  /** The click listeners bound to the selected blocks, in order. */
  function Bindings(blocks: seq<Block>): seq<Effect>
  {
    if blocks == [] then [] else Bindings(blocks[..|blocks| - 1]) + [BindClick(blocks[|blocks| - 1].url)]
  }

  lemma SelectedSnoc(blocks: seq<Block>, k: nat)
    requires k < |blocks|
    ensures Selected(blocks[..k + 1]) == Selected(blocks[..k]) + (if HasPage(blocks[k]) then [blocks[k]] else [])
  {
    assert blocks[..k + 1][..k] == blocks[..k];
  }

  lemma BindingsSnoc(blocks: seq<Block>, b: Block)
    ensures Bindings(blocks + [b]) == Bindings(blocks) + [BindClick(b.url)]
  {
    assert (blocks + [b])[..|blocks|] == blocks;
  }

  /** The control panel after its load handler ran. */
  class RefreshCountdown {
    var countDown: int
    var live: bool
    var effects: seq<Effect>
    var bound: seq<Block>

    function State(): Panel
      reads this
    {
      Panel(countDown, live, effects)
    }

    /** The load handler: starts the one-second interval, then binds a click
        listener to every block with a page, in document order. */
    constructor Load(count: int, blocks: seq<Block>)
      ensures State() == Panel(count, true, [SetInterval(1000)] + Bindings(Selected(blocks)))
      ensures bound == Selected(blocks)
    {
      var e := [SetInterval(1000)];
      var sel: seq<Block> := [];
      for k := 0 to |blocks|
        invariant sel == Selected(blocks[..k])
        invariant e == [SetInterval(1000)] + Bindings(sel)
      {
        SelectedSnoc(blocks, k);
        if HasPage(blocks[k]) {
          var bind := BindClick(blocks[k].url);
          BindingsSnoc(sel, blocks[k]);
          assert e + [bind] == [SetInterval(1000)] + (Bindings(sel) + [bind]);
          sel, e := sel + [blocks[k]], e + [bind];
        }
      }
      assert blocks[..|blocks|] == blocks;
      countDown, live, effects, bound := count, true, e, sel;
    }

    /** One tick of the interval. */
    method Tick()
      requires live
      modifies this
      ensures State() == Step(old(State()))
      ensures bound == old(bound)
    {
      if countDown > 0 {
        countDown := countDown - 1;
        effects := effects + [Shows(countDown)];
      } else {
        effects := effects + [ClearInterval, Reload];
        live := false;
      }
    }

    /** A click on a block: only a block with a listener navigates, to its
        data-url. */
    method Click(b: Block)
      modifies this
      ensures b in bound ==> effects == old(effects) + [Navigate(b.url)]
      ensures b !in bound ==> effects == old(effects)
      ensures countDown == old(countDown) && live == old(live) && bound == old(bound)
    {
      if b in bound {
        effects := effects + [Navigate(b.url)];
      }
    }
  }
}
