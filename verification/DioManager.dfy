/**
The discrete I/O manager: tables of channels that a task updates in place, one tick after the other.
 */
module DioManager {
  import opened DioDebounce
  import DioEdges
  import DioBlink

  const DIO_MAX_DI: nat := 11
  const DIO_MAX_DO: nat := 14

  type Output = DioBlink.Output

  /** A channel after a read of its pin, and whether it reported. */
  function ReadPin(c: Input, high: bool): (Input, bool) {
    if c.DIDebounceEn then Scan(c, !high) else (c.(DIIn := high), false)
  }

  /** The debounce functions called in a read of the first `n` channels. */
  function Called(di: seq<Input>, pins: seq<bool>, n: nat): seq<nat>
    requires n <= |di| == |pins|
  {
    if n == 0 then []
    else Called(di, pins, n - 1) + if ReadPin(di[n - 1], pins[n - 1]).1 && di[n - 1].DIDebFnct then [n - 1] else []
  }

  /** The changes notified in an update of the first `n` channels. */
  function Notified(di: seq<Input>, n: nat): seq<(nat, nat)>
    requires n <= |di|
  {
    if n == 0 then []
    else
      var report := DioEdges.Update(di[n - 1]).1;
      Notified(di, n - 1) + if report.changed then [(n - 1, report.value)] else []
  }

  /** The trigger functions called in an update of the first `n` channels. */
  function Triggered(di: seq<Input>, n: nat): seq<nat>
    requires n <= |di|
  {
    if n == 0 then []
    else Triggered(di, n - 1) + if DioEdges.Update(di[n - 1]).1.trig && di[n - 1].DITrigFnct then [n - 1] else []
  }

  // ---------- What a round over the channels calls ----------

  predicate Increasing(s: seq<nat>) {
    forall i, j :: 0 <= i < j < |s| ==> s[i] < s[j]
  }

  lemma StillIncreasing(s: seq<nat>, x: nat)
    requires Increasing(s) && forall i :: i in s ==> i < x
    ensures Increasing(s + [x]) && Increasing(s + [])
  {
    assert forall i :: 0 <= i < |s| ==> s[i] in s;
  }

  /** A read calls the debounce functions of just the debounced channels that report and have one, each once
      and in order. */
  lemma {:induction false} CalledExactly(di: seq<Input>, pins: seq<bool>, n: nat)
    requires n <= |di| == |pins|
    ensures Increasing(Called(di, pins, n))
    ensures forall i :: i in Called(di, pins, n) <==>
      0 <= i < n && di[i].DIDebounceEn && di[i].DIDebFnct && Scan(di[i], !pins[i]).1
  {
    hide Scan;
    if n > 0 {
      CalledExactly(di, pins, n - 1);
      StillIncreasing(Called(di, pins, n - 1), n - 1);
    }
  }

  /** An update calls the trigger functions of just the counting channels with an edge of their kind that
      have one, each once and in order. */
  lemma {:induction false} TriggeredExactly(di: seq<Input>, n: nat)
    requires n <= |di|
    ensures Increasing(Triggered(di, n))
    ensures forall i :: i in Triggered(di, n) <==>
      && 0 <= i < n && di[i].DITrigFnct && !di[i].DIBypassEn
      && (|| (di[i].DIModeSel == 4 && di[i].DIPrev && !di[i].DIIn)
          || (di[i].DIModeSel == 5 && !di[i].DIPrev && di[i].DIIn)
          || (di[i].DIModeSel == 6 && di[i].DIPrev != di[i].DIIn))
  {
    hide DioEdges.Update;
    if n > 0 {
      TrigIs(di[n - 1]);
      TriggeredExactly(di, n - 1);
      StillIncreasing(Triggered(di, n - 1), n - 1);
    }
  }

  lemma TrigIs(c: Input)
    ensures DioEdges.Update(c).1.trig <==>
      && !c.DIBypassEn
      && (|| (c.DIModeSel == 4 && c.DIPrev && !c.DIIn)
          || (c.DIModeSel == 5 && !c.DIPrev && c.DIIn)
          || (c.DIModeSel == 6 && c.DIPrev != c.DIIn))
  {}

  /** An update notifies just the channels with a new value, each once and in order. */
  lemma {:induction false} NotifiedExactly(di: seq<Input>, n: nat)
    requires n <= |di|
    ensures forall i, j :: 0 <= i < j < |Notified(di, n)| ==> Notified(di, n)[i].0 < Notified(di, n)[j].0
    ensures forall i, value :: (i, value) in Notified(di, n) <==>
      0 <= i < n && value == DioEdges.Update(di[i]).0.DIVal && value != di[i].DIValPrev
  {
    hide DioEdges.Valued;
    if n > 0 { NotifiedExactly(di, n - 1); }
  }

  // ---------- Pins ----------

  /** A channel after reads of its pin, one a tick. */
  function Reads(c: Input, highs: seq<bool>): Input {
    if highs == [] then c else ReadPin(Reads(c, highs[..|highs| - 1]), highs[|highs| - 1]).0
  }

  function Opposites(highs: seq<bool>): (lows: seq<bool>)
    ensures |lows| == |highs|
  {
    seq(|highs|, i requires 0 <= i < |highs| => !highs[i])
  }

  lemma ScanKeepsDebouncing(c: Input, down: bool)
    ensures Scan(c, down).0.DIDebounceEn == c.DIDebounceEn
  {
    hide Scan;
    ScanIsLawful(c, down);
  }

  /** A debounced channel's samples are its low pins; any other channel's input is its last pin. */
  lemma {:induction false} PinsAreSamples(c: Input, highs: seq<bool>)
    ensures Reads(c, highs).DIDebounceEn == c.DIDebounceEn
    ensures c.DIDebounceEn ==> Reads(c, highs) == After(c, Opposites(highs)).c
    ensures !c.DIDebounceEn && highs != [] ==> Reads(c, highs) == c.(DIIn := highs[|highs| - 1])
  {
    hide Scan;
    if highs != [] {
      var before := highs[..|highs| - 1];
      PinsAreSamples(c, before);
      assert Opposites(highs)[..|highs| - 1] == Opposites(before);
      ScanKeepsDebouncing(Reads(c, before), !highs[|highs| - 1]);
    }
  }

  /** From rest, a debounced channel's input falls only when the last debounce delay + 1 pins were low. */
  lemma FallsOnlyHeld(c: Input, highs: seq<bool>, high: bool)
    requires AtRest(c) && c.DIDebounceEn
    requires Reads(c, highs).DIIn && !Reads(c, highs + [high]).DIIn
    ensures |highs| >= c.DIDebounceDly && !high
    ensures forall i :: |highs| - c.DIDebounceDly <= i < |highs| ==> !highs[i]
  {
    hide Scan, Observe, After, Reads, HeldFor, ReadPin;
    var lows := Opposites(highs);
    assert Opposites(highs + [high]) == lows + [!high];
    PinsAreSamples(c, highs);
    PinsAreSamples(c, highs + [high]);
    GlitchesRejected(c, lows, !high);
    HeldPins(highs, high, c.DIDebounceDly);
  }

  lemma HeldPins(highs: seq<bool>, high: bool, n: nat)
    requires HeldFor(Opposites(highs) + [!high], n + 1)
    ensures |highs| >= n && !high && forall i :: |highs| - n <= i < |highs| ==> !highs[i]
  {
    var samples := Opposites(highs) + [!high];
    assert samples[|highs|];
    forall i | |highs| - n <= i < |highs| ensures !highs[i] { assert samples[i]; }
  }

  // ---------- One channel ----------

  method UpStep(input: Input, down: bool) returns (c: Input)
    ensures (c, false) == ScanUp(input, down)
  {
    c := input.(DIIn := true);
    if down {
      c := c.(DIScanState := KEY_STATE_DEBOUNCE, DIDownTmr := 0, DIDebounceDlyCtr := c.DIDebounceDly);
    }
  }

  method DebounceStep(input: Input, down: bool) returns (c: Input, report: bool)
    ensures (c, report) == ScanDebounce(input, down)
  {
    c, report := input, false;
    if !down {
      c := c.(DIScanState := KEY_STATE_UP);
    } else if c.DIDebounceDlyCtr > 0 {
      c := c.(DIDebounceDlyCtr := c.DIDebounceDlyCtr - 1);
      if c.DIDebounceDlyCtr == 0 {
        report := true;
        c := c.(DIIn := false, DIRptStartDlyCtr := c.DIRptStartDly, DIScanState := KEY_STATE_RPT_START_DLY);
      }
    }
  }

  method StartDelayStep(input: Input, down: bool) returns (c: Input, report: bool)
    ensures (c, report) == ScanStart(input, down)
  {
    c, report := input, false;
    if !down {
      c := c.(DIScanState := KEY_STATE_DEBOUNCE);
    } else if c.DIRptStartDlyCtr > 0 {
      c := c.(DIRptStartDlyCtr := c.DIRptStartDlyCtr - 1);
      if c.DIRptStartDlyCtr == 0 {
        report := true;
        c := c.(DIIn := false, DIRptDlyCtr := c.DIRptDly, DIScanState := KEY_STATE_RPT_DLY);
      }
    }
  }

  method RepeatStep(input: Input, down: bool) returns (c: Input, report: bool)
    requires input.DIScanState == KEY_STATE_RPT_DLY
    ensures (c, report) == ScanRepeat(input, down)
  {
    c, report := input, false;
    if !down {
      c := c.(DIScanState := KEY_STATE_DEBOUNCE);
    } else if c.DIRptDlyCtr > 0 {
      c := c.(DIRptDlyCtr := c.DIRptDlyCtr - 1);
      if c.DIRptDlyCtr == 0 {
        report := true;
        c := c.(DIIn := false, DIRptDlyCtr := c.DIRptDly);
      }
    }
  }

  /** The scan's state machine, field by field. */
  method ScanStep(input: Input, down: bool) returns (c: Input, report: bool)
    ensures (c, report) == Scan(input, down)
  {
    hide ScanUp, ScanDebounce, ScanStart, ScanRepeat, Lawful;
    c, report := input, false;
    if down {
      c := c.(DIDownTmr := if c.DIDownTmr == UINT32_MAX then 0 else c.DIDownTmr + 1);
    }
    match c.DIScanState {
      case KEY_STATE_UP => c := UpStep(c, down);
      case KEY_STATE_DEBOUNCE => c, report := DebounceStep(c, down);
      case KEY_STATE_RPT_START_DLY => c, report := StartDelayStep(c, down);
      case KEY_STATE_RPT_DLY => c, report := RepeatStep(c, down);
    }
  }

  /** `DIIsTrig`: an edge of the channel's kind counts, up to the largest number. */
  method IsTrig(input: Input) returns (c: Input, trig: bool)
    requires DioEdges.CountsEdges(input.DIModeSel)
    ensures (c, trig) == DioEdges.Trig(input)
  {
    c, trig := input, false;
    if c.DIModeSel == DioEdges.DI_MODE_EDGE_LOW_GOING {
      if c.DIPrev && !c.DIIn { trig := true; }
    } else if c.DIModeSel == DioEdges.DI_MODE_EDGE_HIGH_GOING {
      if !c.DIPrev && c.DIIn { trig := true; }
    } else if (!c.DIPrev && c.DIIn) || (c.DIPrev && !c.DIIn) {
      trig := true;
    }
    if trig && c.DIVal < UINT32_MAX { c := c.(DIVal := c.DIVal + 1); }
    c := c.(DIPrev := c.DIIn);
  }

  /** A channel's value by its mode: fixed, its input or the opposite of it, one more or the other value for
      an edge, and its own if bypassed. */
  method ValueStep(input: Input) returns (c: Input, trig: bool)
    ensures (c, trig) == DioEdges.Valued(input)
    ensures input.DIBypassEn || input.DIModeSel > 8 ==> c == input && !trig
    ensures !input.DIBypassEn ==>
      var mode, fell, rose := input.DIModeSel, input.DIPrev && !input.DIIn, !input.DIPrev && input.DIIn;
      && (mode == 0 ==> c.DIVal == 0) && (mode == 1 ==> c.DIVal == 1)
      && (mode == 2 ==> c.DIVal == if input.DIIn then 1 else 0)
      && (mode == 3 ==> c.DIVal == if input.DIIn then 0 else 1)
      && (trig <==> (mode == 4 && fell) || (mode == 5 && rose) || (mode == 6 && (fell || rose)))
      && (4 <= mode <= 6 ==> c.DIVal == if trig && input.DIVal < UINT32_MAX then input.DIVal + 1 else input.DIVal)
      && (mode == 7 ==> c.DIVal == if !fell then input.DIVal else if input.DIVal != 0 then 0 else 1)
      && (mode == 8 ==> c.DIVal == if !rose then input.DIVal else if input.DIVal != 0 then 0 else 1)
      && (4 <= mode <= 8 ==> c.DIPrev == input.DIIn)
  {
    c, trig := input, false;
    var mode := c.DIModeSel;
    if !c.DIBypassEn {
      if mode == DioEdges.DI_MODE_LOW {
        c := c.(DIVal := 0);
      } else if mode == DioEdges.DI_MODE_HIGH {
        c := c.(DIVal := 1);
      } else if mode == DioEdges.DI_MODE_DIRECT {
        c := c.(DIVal := if c.DIIn then 1 else 0);
      } else if mode == DioEdges.DI_MODE_INV {
        c := c.(DIVal := if c.DIIn then 0 else 1);
      } else if DioEdges.CountsEdges(mode) {
        c, trig := IsTrig(c);
      } else if mode == DioEdges.DI_MODE_TOGGLE_LOW_GOING {
        if c.DIPrev && !c.DIIn { c := c.(DIVal := if c.DIVal != 0 then 0 else 1); }
        c := c.(DIPrev := c.DIIn);
      } else if mode == DioEdges.DI_MODE_TOGGLE_HIGH_GOING {
        if !c.DIPrev && c.DIIn { c := c.(DIVal := if c.DIVal != 0 then 0 else 1); }
        c := c.(DIPrev := c.DIIn);
      }
    }
  }

  /** An output's state by its mode: fixed, as it is controlled, or blinking, that is asserted exactly if
      blinking is enabled and its counter is not above DOA; and the opposite of it if inverted. Blinking is
      enabled always, by the control or by its opposite; the control is overridden while bypassed. */
  method OutputStep(output: Output, sync: nat) returns (o: Output)
    ensures o == DioBlink.Tick(output, sync)
    ensures DioBlink.ByMode(output, sync, o)
  {
    DioBlink.TickIsByMode(output, sync);
    o := output;
    if !o.DOBypassEn { o := o.(DOBypass := o.DOCtrl); }
    var out := false;
    if o.DOModeSel == DioBlink.DO_MODE_HIGH {
      out := true;
    } else if o.DOModeSel == DioBlink.DO_MODE_DIRECT {
      out := o.DOBypass;
    } else if o.DOModeSel == DioBlink.DO_MODE_BLINK_SYNC {
      if DioBlink.IsBlinkEn(o) && o.DOA >= sync { out := true; }
    } else if o.DOModeSel == DioBlink.DO_MODE_BLINK_ASYNC {
      if DioBlink.IsBlinkEn(o) && o.DOA >= o.DOBCtr { out := true; }
      if o.DOBCtr < o.DOB {
        o := o.(DOBCtr := o.DOBCtr + 1);
      } else {
        o := o.(DOBCtr := 0);
      }
    }
    o := o.(DOOut := if o.DOInv then !out else out);
  }

  class Manager {
    const DITbl: array<Input>
    const DOTbl: array<Output>
    var DOSyncCtr: nat
    var DOSyncCtrMax: nat
    /** The calls of debounce and trigger functions, and the notified changes. */
    var calls: seq<nat>
    var triggers: seq<nat>
    var changes: seq<(nat, nat)>

    ghost predicate Valid()
      reads this
    {
      DITbl.Length == DIO_MAX_DI && DOTbl.Length == DIO_MAX_DO
    }

    constructor (input: Input, output: Output, syncMax: nat)
      ensures Valid() && fresh(DITbl) && fresh(DOTbl)
      ensures DITbl[..] == seq(DIO_MAX_DI, _ => input) && DOTbl[..] == seq(DIO_MAX_DO, _ => output)
      ensures DOSyncCtr == 0 && DOSyncCtrMax == syncMax && calls == [] && triggers == [] && changes == []
    {
      DITbl := new Input[DIO_MAX_DI](_ => input);
      DOTbl := new Output[DIO_MAX_DO](_ => output);
      DOSyncCtr, DOSyncCtrMax, calls, triggers, changes := 0, syncMax, [], [], [];
    }

    /** The scan of one key. */
    method ScanKey(i: nat, high: bool)
      requires i < DITbl.Length && DITbl[i].DIDebounceEn
      modifies DITbl, this`calls
      ensures DITbl[..] == old(DITbl[..])[i := Scan(old(DITbl[i]), !high).0]
      ensures calls == old(calls) + if Scan(old(DITbl[i]), !high).1 && old(DITbl[i]).DIDebFnct then [i] else []
    {
      var c, report := ScanStep(DITbl[i], !high);
      if report && DITbl[i].DIDebFnct {
        calls := calls + [i];
      }
      DITbl[i] := c;
    }

    /** Read all inputs. */
    method DIRd(pins: seq<bool>)
      requires Valid() && |pins| == DIO_MAX_DI
      modifies DITbl, this`calls
      ensures forall i :: 0 <= i < DIO_MAX_DI ==> DITbl[i] == ReadPin(old(DITbl[i]), pins[i]).0
      ensures calls == old(calls) + Called(old(DITbl[..]), pins, DIO_MAX_DI)
    {
      hide Scan;
      for i := 0 to DIO_MAX_DI
        invariant forall k :: 0 <= k < i ==> DITbl[k] == ReadPin(old(DITbl[k]), pins[k]).0
        invariant forall k :: i <= k < DIO_MAX_DI ==> DITbl[k] == old(DITbl[k])
        invariant calls == old(calls) + Called(old(DITbl[..]), pins, i)
      {
        assert old(DITbl[..])[i] == DITbl[i];
        ghost var before := DITbl[..];
        if DITbl[i].DIDebounceEn {
          ScanKey(i, pins[i]);
          assert DITbl[..] == before[i := Scan(before[i], !pins[i]).0];
        } else {
          DITbl[i] := DITbl[i].(DIIn := pins[i]);
          assert DITbl[..] == before[i := before[i].(DIIn := pins[i])];
        }
        assert forall k :: 0 <= k < DIO_MAX_DI && k != i ==> DITbl[..][k] == before[k];
      }
    }

    /** One channel's value, its trigger function, and the notification of a change. */
    method UpdateChannel(i: nat)
      requires i < DITbl.Length
      modifies DITbl, this`triggers, this`changes
      ensures DITbl[..] == old(DITbl[..])[i := DioEdges.Update(old(DITbl[i])).0]
      ensures triggers == old(triggers)
        + if DioEdges.Update(old(DITbl[i])).1.trig && old(DITbl[i]).DITrigFnct then [i] else []
      ensures changes == old(changes)
        + if DioEdges.Update(old(DITbl[i])).1.changed then [(i, DioEdges.Update(old(DITbl[i])).1.value)] else []
    {
      hide DioEdges.Valued;
      var c, trig := ValueStep(DITbl[i]);
      ValuedFrame(DITbl[i]);
      if trig && c.DITrigFnct {
        triggers := triggers + [i];
      }
      if c.DIValPrev != c.DIVal {
        changes := changes + [(i, c.DIVal)];
      }
      DITbl[i] := c.(DIValPrev := c.DIVal);
    }

    /** Update all inputs. */
    method DIUpdate()
      requires Valid()
      modifies DITbl, this`triggers, this`changes
      ensures forall i :: 0 <= i < DIO_MAX_DI ==> DITbl[i] == DioEdges.Update(old(DITbl[i])).0
      ensures forall i :: 0 <= i < DIO_MAX_DI && !old(DITbl[i]).DIBypassEn ==>
        && (DITbl[i].DIModeSel == 2 ==> DITbl[i].DIVal == if DITbl[i].DIIn then 1 else 0)
        && (DITbl[i].DIModeSel == 3 ==> DITbl[i].DIVal == if DITbl[i].DIIn then 0 else 1)
      ensures triggers == old(triggers) + Triggered(old(DITbl[..]), DIO_MAX_DI)
      ensures changes == old(changes) + Notified(old(DITbl[..]), DIO_MAX_DI)
    {
      hide DioEdges.Update;
      for i := 0 to DIO_MAX_DI
        invariant forall k :: 0 <= k < i ==> DITbl[k] == DioEdges.Update(old(DITbl[k])).0
        invariant forall k :: i <= k < DIO_MAX_DI ==> DITbl[k] == old(DITbl[k])
        invariant triggers == old(triggers) + Triggered(old(DITbl[..]), i)
        invariant changes == old(changes) + Notified(old(DITbl[..]), i)
      {
        assert old(DITbl[..])[i] == DITbl[i];
        ghost var before := DITbl[..];
        UpdateChannel(i);
        assert forall k :: 0 <= k < DIO_MAX_DI && k != i ==> DITbl[..][k] == before[k];
      }
      forall i | 0 <= i < DIO_MAX_DI && !old(DITbl[i]).DIBypassEn
        ensures DITbl[i].DIModeSel == 2 ==> DITbl[i].DIVal == if DITbl[i].DIIn then 1 else 0
        ensures DITbl[i].DIModeSel == 3 ==> DITbl[i].DIVal == if DITbl[i].DIIn then 0 else 1
      {
        DioEdges.UpdateLevels(old(DITbl[i]));
        DioEdges.UpdateFrame(old(DITbl[i]));
      }
    }

    /** Update all outputs, and then the counter they share. */
    method DOUpdate()
      requires Valid()
      modifies DOTbl, this`DOSyncCtr
      ensures forall i :: 0 <= i < DIO_MAX_DO ==> DOTbl[i] == DioBlink.Tick(old(DOTbl[i]), old(DOSyncCtr))
      ensures DOSyncCtr == DioBlink.Advance(old(DOSyncCtr), DOSyncCtrMax)
    {
      hide DioBlink.Tick;
      for i := 0 to DIO_MAX_DO
        invariant forall k :: 0 <= k < i ==> DOTbl[k] == DioBlink.Tick(old(DOTbl[k]), DOSyncCtr)
        invariant forall k :: i <= k < DIO_MAX_DO ==> DOTbl[k] == old(DOTbl[k])
        invariant DOSyncCtr == old(DOSyncCtr)
      {
        ghost var before := DOTbl[..];
        var o := OutputStep(DOTbl[i], DOSyncCtr);
        DOTbl[i] := o;
        assert forall k :: 0 <= k < DIO_MAX_DO && k != i ==> DOTbl[..][k] == before[k];
      }
      if DOSyncCtr < DOSyncCtrMax {
        DOSyncCtr := DOSyncCtr + 1;
      } else {
        DOSyncCtr := 0;
      }
    }
  }

  lemma ValuedFrame(c: Input)
    ensures DioEdges.Valued(c).0.DIValPrev == c.DIValPrev && DioEdges.Valued(c).0.DITrigFnct == c.DITrigFnct
  {}
}
