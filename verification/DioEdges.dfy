/**
Discrete inputs: what a channel makes of its input's history in each mode, and the notifications of
changes.
 */
module DioEdges {
  import opened Integers
  import opened DioDebounce

  const DI_MODE_LOW: nat := 0
  const DI_MODE_HIGH: nat := 1
  const DI_MODE_DIRECT: nat := 2
  const DI_MODE_INV: nat := 3
  const DI_MODE_EDGE_LOW_GOING: nat := 4
  const DI_MODE_EDGE_HIGH_GOING: nat := 5
  const DI_MODE_EDGE_BOTH: nat := 6
  const DI_MODE_TOGGLE_LOW_GOING: nat := 7
  const DI_MODE_TOGGLE_HIGH_GOING: nat := 8

  datatype Edge = LowGoing | HighGoing | Both

  /** Whether the step from one input to the next is such an edge. */
  predicate IsEdge(edge: Edge, prev: bool, now: bool) {
    match edge
    case LowGoing => prev && !now
    case HighGoing => !prev && now
    case Both => prev != now
  }

  predicate CountsEdges(mode: nat) { DI_MODE_EDGE_LOW_GOING <= mode <= DI_MODE_EDGE_BOTH }

  predicate Toggles(mode: nat) { mode == DI_MODE_TOGGLE_LOW_GOING || mode == DI_MODE_TOGGLE_HIGH_GOING }

  function EdgeOf(mode: nat): Edge
    requires CountsEdges(mode) || Toggles(mode)
  {
    if mode == DI_MODE_EDGE_BOTH then Both
    else if mode == DI_MODE_EDGE_LOW_GOING || mode == DI_MODE_TOGGLE_LOW_GOING then LowGoing
    else HighGoing
  }

  /** `DIIsTrig`: one input in a counting mode, and whether it triggered. */
  function Trig(c: Input): (Input, bool)
    requires CountsEdges(c.DIModeSel)
  {
    var trig := IsEdge(EdgeOf(c.DIModeSel), c.DIPrev, c.DIIn);
    (c.(DIVal := if trig && c.DIVal < UINT32_MAX then c.DIVal + 1 else c.DIVal, DIPrev := c.DIIn), trig)
  }

  function Valued(c: Input): (Input, bool) {
    var mode := c.DIModeSel;
    if c.DIBypassEn then (c, false)
    else if mode == DI_MODE_LOW then (c.(DIVal := 0), false)
    else if mode == DI_MODE_HIGH then (c.(DIVal := 1), false)
    else if mode == DI_MODE_DIRECT then (c.(DIVal := if c.DIIn then 1 else 0), false)
    else if mode == DI_MODE_INV then (c.(DIVal := if c.DIIn then 0 else 1), false)
    else if CountsEdges(mode) then Trig(c)
    else if Toggles(mode) then
      var flip := IsEdge(EdgeOf(mode), c.DIPrev, c.DIIn);
      (c.(DIVal := if flip then (if c.DIVal != 0 then 0 else 1) else c.DIVal, DIPrev := c.DIIn), false)
    else (c, false)
  }

  /** What one tick of `DIUpdate` reports of a channel: whether its trigger function was due, and the
      new value if it changed. */
  datatype Report = Report(trig: bool, changed: bool, value: nat)

  function Update(c: Input): (Input, Report) {
    var (d, trig) := Valued(c);
    (d.(DIValPrev := d.DIVal), Report(trig, c.DIValPrev != d.DIVal, d.DIVal))
  }

  // ---------- Histories ----------

  /** A channel fed with a history of inputs; the values it notified, and its triggers. */
  datatype Run = Run(c: Input, notified: seq<nat>, triggers: nat)

  function Feed(c: Input, ins: seq<bool>): Run {
    if ins == [] then Run(c, [], 0)
    else
      var r := Feed(c, ins[..|ins| - 1]);
      var (d, report) := Update(r.c.(DIIn := ins[|ins| - 1]));
      Run(d, if report.changed then r.notified + [report.value] else r.notified,
          if report.trig then r.triggers + 1 else r.triggers)
  }

  /** The input before the last of a history. */
  function Last(prev: bool, ins: seq<bool>): bool { if ins == [] then prev else ins[|ins| - 1] }

  /** The edges of a kind between adjacent inputs of a history, the first of them after `prev`. */
  function Edges(edge: Edge, prev: bool, ins: seq<bool>): nat {
    if ins == [] then 0
    else
      Edges(edge, prev, ins[..|ins| - 1])
      + if IsEdge(edge, Last(prev, ins[..|ins| - 1]), ins[|ins| - 1]) then 1 else 0
  }

  lemma UpdateFrame(c: Input)
    ensures var d := Update(c).0;
      d.DIModeSel == c.DIModeSel && d.DIBypassEn == c.DIBypassEn && d.DIIn == c.DIIn && d.DIValPrev == d.DIVal
  {}

  lemma {:induction false} FeedFrame(c: Input, ins: seq<bool>)
    ensures var r := Feed(c, ins); r.c.DIModeSel == c.DIModeSel && r.c.DIBypassEn == c.DIBypassEn
  {
    hide Update;
    if ins != [] {
      FeedFrame(c, ins[..|ins| - 1]);
      UpdateFrame(Feed(c, ins[..|ins| - 1]).c.(DIIn := ins[|ins| - 1]));
    }
  }

  /** What one tick makes of the value in the modes that look at the input's level, or at nothing. */
  lemma UpdateLevels(c: Input)
    ensures var v := Update(c).0.DIVal;
      && (c.DIBypassEn || c.DIModeSel > DI_MODE_TOGGLE_HIGH_GOING ==> v == c.DIVal)
      && (!c.DIBypassEn && c.DIModeSel == DI_MODE_LOW ==> v == 0)
      && (!c.DIBypassEn && c.DIModeSel == DI_MODE_HIGH ==> v == 1)
      && (!c.DIBypassEn && c.DIModeSel == DI_MODE_DIRECT ==> v == if c.DIIn then 1 else 0)
      && (!c.DIBypassEn && c.DIModeSel == DI_MODE_INV ==> v == if c.DIIn then 0 else 1)
  {}

  /** After any history a direct channel's value is its last input, an inverted one's the other, a fixed
      one's its constant; bypassed, and in a mode that does not exist, a channel keeps its value. */
  lemma {:induction false} LevelFollows(c: Input, ins: seq<bool>)
    ensures var v := Feed(c, ins).c.DIVal;
      && (c.DIBypassEn || c.DIModeSel > DI_MODE_TOGGLE_HIGH_GOING ==> v == c.DIVal)
      && (ins != [] && !c.DIBypassEn ==>
           var last := ins[|ins| - 1];
           && (c.DIModeSel == DI_MODE_LOW ==> v == 0)
           && (c.DIModeSel == DI_MODE_HIGH ==> v == 1)
           && (c.DIModeSel == DI_MODE_DIRECT ==> v == if last then 1 else 0)
           && (c.DIModeSel == DI_MODE_INV ==> v == if last then 0 else 1))
  {
    hide Update;
    if ins != [] {
      var before := ins[..|ins| - 1];
      LevelFollows(c, before);
      FeedFrame(c, before);
      UpdateLevels(Feed(c, before).c.(DIIn := ins[|ins| - 1]));
    }
  }

  lemma UpdateCounts(c: Input)
    requires CountsEdges(c.DIModeSel) && !c.DIBypassEn && c.DIVal <= UINT32_MAX
    ensures var (d, report) := Update(c); var edge := IsEdge(EdgeOf(c.DIModeSel), c.DIPrev, c.DIIn);
      && d.DIPrev == c.DIIn && report.trig == edge
      && d.DIVal == Min(UINT32_MAX, c.DIVal + if edge then 1 else 0)
  {}

  /** A counting channel's value is its start plus the edges of its kind, up to the largest number. */
  lemma {:induction false} CounterIsEdges(c: Input, ins: seq<bool>)
    requires CountsEdges(c.DIModeSel) && !c.DIBypassEn && c.DIVal <= UINT32_MAX
    ensures Feed(c, ins).c.DIVal == Min(UINT32_MAX, c.DIVal + Edges(EdgeOf(c.DIModeSel), c.DIPrev, ins))
    ensures Feed(c, ins).triggers == Edges(EdgeOf(c.DIModeSel), c.DIPrev, ins)
    ensures Feed(c, ins).c.DIPrev == Last(c.DIPrev, ins)
  {
    hide Update;
    if ins != [] {
      var before := ins[..|ins| - 1];
      CounterIsEdges(c, before);
      FeedFrame(c, before);
      UpdateCounts(Feed(c, before).c.(DIIn := ins[|ins| - 1]));
    }
  }

  /** Edges of both kinds are the low-going and the high-going ones, and these differ by what the
      history did in all: at most one. */
  lemma {:induction false} BothIsSum(prev: bool, ins: seq<bool>)
    ensures Edges(Both, prev, ins) == Edges(LowGoing, prev, ins) + Edges(HighGoing, prev, ins)
    ensures Edges(LowGoing, prev, ins) as int - Edges(HighGoing, prev, ins)
      == (if prev then 1 else 0) - (if Last(prev, ins) then 1 else 0)
  {
    if ins != [] {
      BothIsSum(prev, ins[..|ins| - 1]);
    }
  }

  lemma UpdateToggles(c: Input)
    requires Toggles(c.DIModeSel) && !c.DIBypassEn
    ensures var (d, report) := Update(c); var edge := IsEdge(EdgeOf(c.DIModeSel), c.DIPrev, c.DIIn);
      && d.DIPrev == c.DIIn && !report.trig
      && d.DIVal == if edge then (if c.DIVal != 0 then 0 else 1) else c.DIVal
  {}

  /** The value after a number of toggles: only the first sees a number other than 0 and 1. */
  function Toggled(value: nat, edges: nat): nat {
    if edges == 0 then value else if (value != 0) == (edges % 2 == 0) then 1 else 0
  }

  /** A toggling channel holds the parity of its edges. */
  lemma {:induction false} ToggleIsParity(c: Input, ins: seq<bool>)
    requires Toggles(c.DIModeSel) && !c.DIBypassEn
    ensures Feed(c, ins).c.DIVal == Toggled(c.DIVal, Edges(EdgeOf(c.DIModeSel), c.DIPrev, ins))
    ensures Feed(c, ins).c.DIPrev == Last(c.DIPrev, ins)
  {
    hide Update;
    if ins != [] {
      var before := ins[..|ins| - 1];
      ToggleIsParity(c, before);
      FeedFrame(c, before);
      UpdateToggles(Feed(c, before).c.(DIIn := ins[|ins| - 1]));
    }
  }

  // ---------- Notifications ----------

  /** What somebody knows who starts from a value and is notified. */
  function Replay(value: nat, notified: seq<nat>): nat {
    if notified == [] then value else notified[|notified| - 1]
  }

  /** Each notification brings news. */
  predicate NoRepeats(value: nat, notified: seq<nat>) {
    forall i: nat :: i < |notified| ==> IsNews(value, notified, i)
  }

  /** In every mode, bypassed or not, replaying the notifications gives the value after each tick, and
      none of them is idle. */
  lemma {:induction false} NotificationsReplay(c: Input, ins: seq<bool>)
    ensures Feed(c, ins).c.DIValPrev == Replay(c.DIValPrev, Feed(c, ins).notified)
    ensures ins != [] ==> Feed(c, ins).c.DIVal == Replay(c.DIValPrev, Feed(c, ins).notified)
    ensures NoRepeats(c.DIValPrev, Feed(c, ins).notified)
  {
    hide Update, NoRepeats;
    if ins == [] {
      AppendNews(c.DIValPrev, [], 0);
    } else {
      NotificationsReplay(c, ins[..|ins| - 1]);
      var r := Feed(c, ins[..|ins| - 1]);
      UpdateNotifies(r.c.(DIIn := ins[|ins| - 1]));
      AppendNews(c.DIValPrev, r.notified, Update(r.c.(DIIn := ins[|ins| - 1])).1.value);
    }
  }

  predicate IsNews(value: nat, notified: seq<nat>, i: nat)
    requires i < |notified|
  {
    notified[i] != if i == 0 then value else notified[i - 1]
  }

  lemma AppendNews(value: nat, notified: seq<nat>, news: nat)
    ensures notified == [] ==> NoRepeats(value, notified)
    ensures NoRepeats(value, notified) && news != Replay(value, notified) ==> NoRepeats(value, notified + [news])
  {
    if NoRepeats(value, notified) && news != Replay(value, notified) {
      var all := notified + [news];
      forall i: nat | i < |all| ensures IsNews(value, all, i) {
        if i < |notified| {
          assert IsNews(value, notified, i);
        }
      }
    }
  }

  lemma UpdateNotifies(c: Input)
    ensures var (d, report) := Update(c);
      && d.DIVal == report.value == d.DIValPrev && (report.changed <==> c.DIValPrev != d.DIVal)
  {
    hide Valued;
  }
}
