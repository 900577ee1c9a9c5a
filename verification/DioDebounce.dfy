/**
Discrete inputs: the scan of one key with debounce and auto-repeat, one sample per tick.
 */
module DioDebounce {

  datatype ScanState = KEY_STATE_UP | KEY_STATE_DEBOUNCE | KEY_STATE_RPT_START_DLY | KEY_STATE_RPT_DLY

  const UINT32_MAX: nat := 0xFFFF_FFFF

  /** An input channel. `DITrigFnct` and `DIDebFnct` tell whether a function is registered. */
  datatype Input = Input(
    DIIn: bool, DIVal: nat, DIValPrev: nat, DIPrev: bool, DIBypassEn: bool, DIModeSel: nat, DITrigFnct: bool,
    DIDebounceEn: bool, DIDownTmr: nat,
    DIDebounceDlyCtr: nat, DIDebounceDly: nat,
    DIRptStartDlyCtr: nat, DIRptStartDly: nat,
    DIRptDlyCtr: nat, DIRptDly: nat,
    DIScanState: ScanState, DIDebFnct: bool)

  /** `DIIsKeyDown`: a key that is down lengthens the timer. */
  function Timed(c: Input, down: bool): Input {
    if down then c.(DIDownTmr := if c.DIDownTmr == UINT32_MAX then 0 else c.DIDownTmr + 1) else c
  }

  predicate SameSettings(c: Input, a: Input) {
    && a.DIDebounceDly == c.DIDebounceDly && a.DIRptStartDly == c.DIRptStartDly && a.DIRptDly == c.DIRptDly
    && a.DIDebounceEn == c.DIDebounceEn
  }

  predicate Repeats(c: Input) {
    c.DIScanState == KEY_STATE_RPT_START_DLY || c.DIScanState == KEY_STATE_RPT_DLY
  }

  /** A tick keeps the settings; a report leaves the channel in a repeat state; only a report lowers the
      input. */
  predicate Lawful(c: Input, r: (Input, bool)) {
    && SameSettings(c, r.0)
    && (r.1 ==> Repeats(r.0))
    && (c.DIIn && !r.0.DIIn ==> r.1)
  }

  /** One tick in each of the states, and whether it reports a press or a repetition. */
  function ScanUp(c: Input, down: bool): (r: (Input, bool))
    ensures Lawful(c, r)
  {
    if down then
      (c.(DIIn := true, DIScanState := KEY_STATE_DEBOUNCE, DIDownTmr := 0, DIDebounceDlyCtr := c.DIDebounceDly), false)
    else
      (c.(DIIn := true), false)
  }

  function ScanDebounce(c: Input, down: bool): (r: (Input, bool))
    ensures Lawful(c, r)
    ensures !c.DIIn ==> !r.0.DIIn
  {
    if !down then (c.(DIScanState := KEY_STATE_UP), false)
    else if c.DIDebounceDlyCtr == 0 then (c, false)
    else if c.DIDebounceDlyCtr > 1 then (c.(DIDebounceDlyCtr := c.DIDebounceDlyCtr - 1), false)
    else
      (c.(DIDebounceDlyCtr := 0, DIIn := false, DIRptStartDlyCtr := c.DIRptStartDly,
          DIScanState := KEY_STATE_RPT_START_DLY), true)
  }

  function ScanStart(c: Input, down: bool): (r: (Input, bool))
    ensures Lawful(c, r)
    ensures !c.DIIn ==> !r.0.DIIn
  {
    if !down then (c.(DIScanState := KEY_STATE_DEBOUNCE), false)
    else if c.DIRptStartDlyCtr == 0 then (c, false)
    else if c.DIRptStartDlyCtr > 1 then (c.(DIRptStartDlyCtr := c.DIRptStartDlyCtr - 1), false)
    else (c.(DIRptStartDlyCtr := 0, DIIn := false, DIRptDlyCtr := c.DIRptDly, DIScanState := KEY_STATE_RPT_DLY), true)
  }

  function ScanRepeat(c: Input, down: bool): (r: (Input, bool))
    requires c.DIScanState == KEY_STATE_RPT_DLY
    ensures Lawful(c, r)
    ensures !c.DIIn ==> !r.0.DIIn
  {
    if !down then (c.(DIScanState := KEY_STATE_DEBOUNCE), false)
    else if c.DIRptDlyCtr == 0 then (c, false)
    else if c.DIRptDlyCtr > 1 then (c.(DIRptDlyCtr := c.DIRptDlyCtr - 1), false)
    else (c.(DIIn := false, DIRptDlyCtr := c.DIRptDly), true)
  }

  /** One tick of a debounced channel. */
  function Scan(input: Input, down: bool): (Input, bool) {
    var c := Timed(input, down);
    match c.DIScanState
    case KEY_STATE_UP => ScanUp(c, down)
    case KEY_STATE_DEBOUNCE => ScanDebounce(c, down)
    case KEY_STATE_RPT_START_DLY => ScanStart(c, down)
    case KEY_STATE_RPT_DLY => ScanRepeat(c, down)
  }

  // ---------- Any samples ----------

  /** A channel, its samples' history, the reports so far and the released samples since the last. */
  datatype Trace = Trace(c: Input, reports: nat, released: nat)

  function Observe(t: Trace, down: bool): Trace {
    var (c, report) := Scan(t.c, down);
    if report then Trace(c, t.reports + 1, 0)
    else Trace(c, t.reports, if down then t.released else t.released + 1)
  }

  function After(c: Input, samples: seq<bool>): Trace {
    if samples == [] then Trace(c, 0, 0)
    else Observe(After(c, samples[..|samples| - 1]), samples[|samples| - 1])
  }

  /** The last `n` samples were down. */
  predicate HeldFor(samples: seq<bool>, n: nat) {
    n <= |samples| && forall i :: |samples| - n <= i < |samples| ==> samples[i]
  }

  predicate AtRest(c: Input) { c.DIScanState == KEY_STATE_UP }

  /** What a channel's state says about its samples. */
  predicate Explains(t: Trace, samples: seq<bool>) {
    var c := t.c;
    match c.DIScanState
    case KEY_STATE_UP =>
      t.reports > 0 && !c.DIIn ==> t.released >= 2
    case KEY_STATE_DEBOUNCE =>
      && c.DIDebounceDlyCtr <= c.DIDebounceDly
      && (c.DIDebounceDlyCtr > 0 ==> c.DIIn && HeldFor(samples, c.DIDebounceDly - c.DIDebounceDlyCtr + 1))
      && (t.reports > 0 && !c.DIIn ==> t.released >= 1)
      && (t.reports == 0 ==> c.DIIn)
    case KEY_STATE_RPT_START_DLY =>
      && t.reports > 0 && !c.DIIn && c.DIDebounceDlyCtr == 0 && t.released == 0
      && c.DIRptStartDlyCtr <= c.DIRptStartDly
      && HeldFor(samples, c.DIDebounceDly + 1 + c.DIRptStartDly - c.DIRptStartDlyCtr)
    case KEY_STATE_RPT_DLY =>
      && t.reports > 0 && !c.DIIn && c.DIDebounceDlyCtr == 0 && t.released == 0
      && c.DIRptDlyCtr <= c.DIRptDly
      && HeldFor(samples, c.DIDebounceDly + 1 + c.DIRptStartDly + c.DIRptDly - c.DIRptDlyCtr)
  }

  lemma HeldLonger(samples: seq<bool>, n: nat, down: bool)
    requires HeldFor(samples, n) && down
    ensures HeldFor(samples + [down], n + 1) && HeldFor(samples + [down], 1)
  {}

  lemma HeldLess(samples: seq<bool>, n: nat, m: nat)
    requires HeldFor(samples, n) && m <= n
    ensures HeldFor(samples, m)
  {}

  lemma UpExplains(t: Trace, samples: seq<bool>, down: bool)
    requires Explains(t, samples) && t.c.DIScanState == KEY_STATE_UP
    ensures Explains(Observe(t, down), samples + [down])
  {
    hide HeldFor, Lawful, ScanDebounce, ScanStart, ScanRepeat;
    if down {
      HeldNone(samples);
      HeldLonger(samples, 0, down);
    }
  }

  lemma DebounceExplains(t: Trace, samples: seq<bool>, down: bool)
    requires Explains(t, samples) && t.c.DIScanState == KEY_STATE_DEBOUNCE
    ensures Explains(Observe(t, down), samples + [down])
  {
    hide HeldFor, Lawful, ScanUp, ScanStart, ScanRepeat;
    if down && t.c.DIDebounceDlyCtr > 0 {
      HeldLonger(samples, t.c.DIDebounceDly - t.c.DIDebounceDlyCtr + 1, down);
    }
  }

  lemma StartDelayExplains(t: Trace, samples: seq<bool>, down: bool)
    requires Explains(t, samples) && t.c.DIScanState == KEY_STATE_RPT_START_DLY
    ensures Explains(Observe(t, down), samples + [down])
  {
    hide HeldFor, Lawful, ScanUp, ScanDebounce, ScanRepeat;
    if down {
      var n := t.c.DIDebounceDly + 1 + t.c.DIRptStartDly - t.c.DIRptStartDlyCtr;
      HeldLonger(samples, n, down);
      HeldLess(samples + [down], n + 1, n);
    }
  }

  lemma RepeatExplains(t: Trace, samples: seq<bool>, down: bool)
    requires Explains(t, samples) && t.c.DIScanState == KEY_STATE_RPT_DLY
    ensures Explains(Observe(t, down), samples + [down])
  {
    hide HeldFor, Lawful, ScanUp, ScanDebounce, ScanStart;
    if down {
      var full := t.c.DIDebounceDly + 1 + t.c.DIRptStartDly;
      var n := full + t.c.DIRptDly - t.c.DIRptDlyCtr;
      HeldLonger(samples, n, down);
      HeldLess(samples + [down], n + 1, n);
      HeldLess(samples + [down], n + 1, full);
    }
  }

  lemma ObserveExplains(t: Trace, samples: seq<bool>, down: bool)
    requires Explains(t, samples)
    ensures Explains(Observe(t, down), samples + [down])
  {
    if t.c.DIScanState == KEY_STATE_UP {
      UpExplains(t, samples, down);
    } else if t.c.DIScanState == KEY_STATE_DEBOUNCE {
      DebounceExplains(t, samples, down);
    } else if t.c.DIScanState == KEY_STATE_RPT_START_DLY {
      StartDelayExplains(t, samples, down);
    } else {
      RepeatExplains(t, samples, down);
    }
  }

  lemma HeldNone(samples: seq<bool>)
    ensures HeldFor(samples, 0)
  {}

  lemma {:induction false} AlwaysExplained(c: Input, samples: seq<bool>)
    requires AtRest(c)
    ensures Explains(After(c, samples), samples)
  {
    hide Explains, Observe;
    if samples == [] {
      RestExplains(c);
    } else {
      var before := samples[..|samples| - 1];
      AlwaysExplained(c, before);
      ObserveExplains(After(c, before), before, samples[|samples| - 1]);
      assert before + [samples[|samples| - 1]] == samples;
    }
  }

  lemma RestExplains(c: Input)
    requires AtRest(c)
    ensures Explains(Trace(c, 0, 0), [])
  {}

  lemma ScanIsLawful(c: Input, down: bool)
    ensures Lawful(c, Scan(c, down))
  {
    hide ScanUp, ScanDebounce, ScanStart, ScanRepeat;
  }

  lemma {:induction false} SettingsKept(c: Input, samples: seq<bool>)
    ensures SameSettings(c, After(c, samples).c)
  {
    hide Scan;
    if samples != [] {
      SettingsKept(c, samples[..|samples| - 1]);
      ScanIsLawful(After(c, samples[..|samples| - 1]).c, samples[|samples| - 1]);
    }
  }

  lemma ObserveIsLawful(t: Trace, down: bool)
    ensures var now := Observe(t, down);
      && (now.reports > t.reports ==> Repeats(now.c))
      && (t.c.DIIn && !now.c.DIIn ==> now.reports > t.reports)
  {
    hide Scan;
    ScanIsLawful(t.c, down);
  }

  lemma RaisedAtRest(t: Trace, down: bool)
    requires !t.c.DIIn && Observe(t, down).c.DIIn
    ensures t.c.DIScanState == KEY_STATE_UP
  {
    hide ScanUp, ScanDebounce, ScanStart, ScanRepeat, Lawful;
  }

  lemma OnlyRestRaises(t: Trace, samples: seq<bool>, down: bool)
    requires Explains(t, samples) && t.reports > 0 && !t.c.DIIn && Observe(t, down).c.DIIn
    ensures t.released >= 2
  {
    hide HeldFor, Observe;
    RaisedAtRest(t, down);
  }

  lemma RepeatIsHeld(t: Trace, samples: seq<bool>)
    requires Explains(t, samples)
    requires Repeats(t.c)
    ensures HeldFor(samples, t.c.DIDebounceDly + 1) && !t.c.DIIn
  {}

  /** For every trace of samples: a press is reported, and the input falls, only when the last
      debounce delay + 1 samples were down; the input rises again only after at least two released
      samples since the last report; and it is low in both repeat states. */
  lemma GlitchesRejected(c: Input, samples: seq<bool>, down: bool)
    requires AtRest(c)
    ensures After(c, samples + [down]) == Observe(After(c, samples), down)
    ensures var before := After(c, samples); var now := Observe(before, down);
      && (now.reports > before.reports ==> HeldFor(samples + [down], c.DIDebounceDly + 1))
      && (before.c.DIIn && !now.c.DIIn ==> now.reports > before.reports)
      && (before.reports > 0 && !before.c.DIIn && now.c.DIIn ==> before.released >= 2)
      && (Repeats(now.c) ==> !now.c.DIIn)
  {
    hide HeldFor, Observe;
    assert (samples + [down])[..|samples|] == samples;
    var before := After(c, samples);
    var now := After(c, samples + [down]);
    AlwaysExplained(c, samples);
    AlwaysExplained(c, samples + [down]);
    SettingsKept(c, samples + [down]);
    hide After, Explains;
    ObserveIsLawful(before, down);
    if before.reports > 0 && !before.c.DIIn && now.c.DIIn { OnlyRestRaises(before, samples, down); }
    if Repeats(now.c) { RepeatIsHeld(now, samples + [down]); }
  }

  // ---------- A held key ----------

  /** `n` ticks with the key held. */
  function Held(c: Input, n: nat): Trace {
    if n == 0 then Trace(c, 0, 0) else Observe(Held(c, n - 1), true)
  }

  /** The closed form: nothing through the debounce delay, once through the start delay, then once
      for every repeat delay; a delay of 0 stops what would follow it. */
  function Reports(d: nat, s: nat, r: nat, n: nat): nat {
    if d == 0 || n <= d then 0
    else if s == 0 || n <= d + s then 1
    else if r == 0 then 2
    else 2 + (n - d - 1 - s) / r
  }

  /** The state after `n` held ticks. */
  predicate HeldState(c: Input, n: nat, t: Trace) {
    var d, s, r := c.DIDebounceDly, c.DIRptStartDly, c.DIRptDly;
    && t.reports == Reports(d, s, r, n)
    && t.c.DIDebounceDly == d && t.c.DIRptStartDly == s && t.c.DIRptDly == r
    && (if n == 0 then t.c.DIScanState == KEY_STATE_UP
        else if d == 0 then Waits(t.c, KEY_STATE_DEBOUNCE, t.c.DIDebounceDlyCtr, 0)
        else if n <= d then Waits(t.c, KEY_STATE_DEBOUNCE, t.c.DIDebounceDlyCtr, d - (n - 1))
        else if s == 0 then Waits(t.c, KEY_STATE_RPT_START_DLY, t.c.DIRptStartDlyCtr, 0)
        else if n <= d + s then Waits(t.c, KEY_STATE_RPT_START_DLY, t.c.DIRptStartDlyCtr, s - (n - d - 1))
        else Waits(t.c, KEY_STATE_RPT_DLY, t.c.DIRptDlyCtr, if r == 0 then 0 else r - (n - d - 1 - s) % r))
  }

  predicate Waits(c: Input, state: ScanState, counter: nat, value: int) {
    c.DIScanState == state && counter == value
  }

  lemma NextQuotient(m: nat, r: nat)
    requires r > 0
    ensures m % r + 1 == r ==> (m + 1) / r == m / r + 1 && (m + 1) % r == 0
    ensures m % r + 1 < r ==> (m + 1) / r == m / r && (m + 1) % r == m % r + 1
  {
    var q := m / r;
    assert m == q * r + m % r;
    if m % r + 1 == r {
      assert m + 1 == (q + 1) * r;
      QuotientIs(m + 1, r, q + 1, 0);
    } else {
      QuotientIs(m + 1, r, q, m % r + 1);
    }
  }

  lemma QuotientIs(m: nat, r: nat, q: nat, k: nat)
    requires r > 0 && m == q * r + k && k < r
    ensures m / r == q && m % r == k
  {
    var p := m / r;
    assert m == p * r + m % r;
    if p < q { Scaled(p + 1, q, r); }
    if q < p { Scaled(q + 1, p, r); }
  }

  lemma Scaled(a: nat, b: nat, r: nat)
    requires a <= b
    ensures a * r <= b * r
  {}

  /** For every count of ticks and all delays, zero included. */
  lemma {:induction false} HeldKeyRepeats(c: Input, n: nat)
    requires AtRest(c)
    ensures HeldState(c, n, Held(c, n))
    ensures Held(c, n).reports == Reports(c.DIDebounceDly, c.DIRptStartDly, c.DIRptDly, n)
  {
    hide Observe, Waits;
    if n > 0 {
      HeldKeyRepeats(c, n - 1);
      HeldStep(c, n - 1, Held(c, n - 1));
    }
  }

  /** While a key is held the timer counts the ticks since the first, and starts over beyond 32 bits. */
  lemma {:induction false} DownTimer(c: Input, n: nat)
    requires AtRest(c) && n > 0
    ensures Held(c, n).c.DIScanState != KEY_STATE_UP
    ensures Held(c, n).c.DIDownTmr == (n - 1) % (UINT32_MAX + 1)
  {
    if n == 1 {
      assert Held(c, 0).c == c;
    } else {
      DownTimer(c, n - 1);
      TimerStep(Held(c, n - 1));
      NextInWord(n - 2);
    }
  }

  lemma TimerStep(t: Trace)
    requires t.c.DIScanState != KEY_STATE_UP
    ensures var now := Observe(t, true).c;
      && now.DIScanState != KEY_STATE_UP
      && now.DIDownTmr == if t.c.DIDownTmr == UINT32_MAX then 0 else t.c.DIDownTmr + 1
  {
    hide ScanUp, ScanDebounce, ScanStart, ScanRepeat, Lawful;
    var c := Timed(t.c, true);
    match c.DIScanState
    case KEY_STATE_DEBOUNCE => DebounceStays(c);
    case KEY_STATE_RPT_START_DLY => StartStays(c);
    case KEY_STATE_RPT_DLY => RepeatStays(c);
  }

  /** A key that is held on leaves the timer to `Timed`. */
  lemma DebounceStays(c: Input)
    requires c.DIScanState != KEY_STATE_UP
    ensures var d := ScanDebounce(c, true).0; d.DIDownTmr == c.DIDownTmr && d.DIScanState != KEY_STATE_UP
  {}

  lemma StartStays(c: Input)
    requires c.DIScanState != KEY_STATE_UP
    ensures var d := ScanStart(c, true).0; d.DIDownTmr == c.DIDownTmr && d.DIScanState != KEY_STATE_UP
  {}

  lemma RepeatStays(c: Input)
    requires c.DIScanState == KEY_STATE_RPT_DLY
    ensures var d := ScanRepeat(c, true).0; d.DIDownTmr == c.DIDownTmr && d.DIScanState != KEY_STATE_UP
  {}

  lemma NextInWord(n: nat)
    ensures (n + 1) % (UINT32_MAX + 1) == if n % (UINT32_MAX + 1) == UINT32_MAX then 0 else n % (UINT32_MAX + 1) + 1
  {}

  lemma HeldStep(c: Input, n: nat, t: Trace)
    requires HeldState(c, n, t)
    ensures HeldState(c, n + 1, Observe(t, true))
  {
    var d, s, r := c.DIDebounceDly, c.DIRptStartDly, c.DIRptDly;
    if d > 0 && s > 0 && n > d + s && r > 0 {
      NextQuotient(n - d - 1 - s, r);
    } else if d > 0 && s > 0 && n == d + s && r > 0 {
      QuotientIs(0, r, 0, 0);
    }
  }

  // ---------- A glitch while repeating ----------

  /** One released sample while a key repeats ends the repetition for as long as the key is held from
      then on: the channel waits in the debounce state with a spent delay, and its input stays low. */
  lemma {:induction false} GlitchEndsRepeat(t: Trace, n: nat)
    requires Repeats(t.c)
    requires t.c.DIDebounceDlyCtr == 0 && !t.c.DIIn
    ensures var a := HeldOn(Observe(t, false), n);
      a.reports == t.reports && a.c.DIScanState == KEY_STATE_DEBOUNCE && a.c.DIDebounceDlyCtr == 0 && !a.c.DIIn
  {
    if n > 0 { GlitchEndsRepeat(t, n - 1); }
  }

  function HeldOn(t: Trace, n: nat): Trace {
    if n == 0 then t else Observe(HeldOn(t, n - 1), true)
  }

  lemma ReleaseGoesBack(t: Trace)
    ensures var a := Observe(t, false);
      a.c.DIScanState == if t.c.DIScanState == KEY_STATE_UP || t.c.DIScanState == KEY_STATE_DEBOUNCE
                         then KEY_STATE_UP else KEY_STATE_DEBOUNCE
  {}

  lemma RestIsHigh(t: Trace, down: bool)
    requires t.c.DIScanState == KEY_STATE_UP
    ensures Observe(t, down).c.DIIn
  {}

  /** Two released samples bring the channel to rest from every state, and the next tick, whatever its
      sample, finds the input high. */
  lemma TwoReleasesRest(t: Trace, down: bool)
    ensures var a := Observe(Observe(t, false), false); a.c.DIScanState == KEY_STATE_UP && Observe(a, down).c.DIIn
  {
    hide Observe;
    ReleaseGoesBack(t);
    ReleaseGoesBack(Observe(t, false));
    RestIsHigh(Observe(Observe(t, false), false), down);
  }
}
