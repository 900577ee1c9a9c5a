/**
Discrete outputs: one tick of a channel, and the duty cycle of its blink modes.
 */
module DioBlink {
  import opened Integers

  const DO_MODE_LOW: nat := 0
  const DO_MODE_HIGH: nat := 1
  const DO_MODE_DIRECT: nat := 2
  const DO_MODE_BLINK_SYNC: nat := 3
  const DO_MODE_BLINK_ASYNC: nat := 4

  const DO_BLINK_EN: nat := 0
  const DO_BLINK_EN_NORMAL: nat := 1
  const DO_BLINK_EN_INV: nat := 2

  datatype Output = Output(
    DOOut: bool, DOCtrl: bool, DOBypass: bool, DOBypassEn: bool, DOModeSel: nat, DOBlinkEnSel: nat, DOInv: bool,
    DOA: nat, DOB: nat, DOBCtr: nat)

  function IsBlinkEn(o: Output): bool {
    if o.DOBlinkEnSel == DO_BLINK_EN then true
    else if o.DOBlinkEnSel == DO_BLINK_EN_NORMAL then o.DOBypass
    else if o.DOBlinkEnSel == DO_BLINK_EN_INV then !o.DOBypass
    else false
  }

  /** A counter that runs through 0 to `max` and starts over; beyond, it starts over at once. */
  function Advance(ctr: nat, max: nat): nat { if ctr < max then ctr + 1 else 0 }

  /** One tick of an output, given the synchronous counter. */
  function Tick(output: Output, sync: nat): Output {
    var o := if output.DOBypassEn then output else output.(DOBypass := output.DOCtrl);
    var mode := o.DOModeSel;
    var out :=
      if mode == DO_MODE_LOW then false
      else if mode == DO_MODE_HIGH then true
      else if mode == DO_MODE_DIRECT then o.DOBypass
      else if mode == DO_MODE_BLINK_SYNC then IsBlinkEn(o) && o.DOA >= sync
      else if mode == DO_MODE_BLINK_ASYNC then IsBlinkEn(o) && o.DOA >= o.DOBCtr
      else false;
    o.(DOOut := out != o.DOInv,
       DOBCtr := if mode == DO_MODE_BLINK_ASYNC then Advance(o.DOBCtr, o.DOB) else o.DOBCtr)
  }

  /** What an output is after a tick, by its mode: fixed, as it is controlled, or blinking, that is asserted
      exactly if blinking is enabled and its counter is not above DOA; and the opposite if inverted.
      Blinking is enabled always, by the control or by its opposite; the control is overridden while
      bypassed. */
  predicate ByMode(output: Output, sync: nat, o: Output) {
    var mode, control := output.DOModeSel, if output.DOBypassEn then output.DOBypass else output.DOCtrl;
    var enabled := match output.DOBlinkEnSel case 0 => true case 1 => control case 2 => !control case _ => false;
    var out := match mode
      case 1 => true
      case 2 => control
      case 3 => enabled && sync <= output.DOA
      case 4 => enabled && output.DOBCtr <= output.DOA
      case _ => false;
    var ctr := if mode != 4 then output.DOBCtr else if output.DOBCtr < output.DOB then output.DOBCtr + 1 else 0;
    o == output.(DOOut := if output.DOInv then !out else out, DOBypass := control, DOBCtr := ctr)
  }

  lemma TickIsByMode(output: Output, sync: nat)
    ensures ByMode(output, sync, Tick(output, sync))
  {}

  // ---------- Runs ----------

  /** An output and the synchronous counter after `n` ticks with nothing reconfigured, and at how many
      of the ticks the output was asserted. */
  datatype Run = Run(o: Output, sync: nat, asserted: nat)

  function Ticks(o: Output, sync: nat, syncMax: nat, n: nat): Run {
    if n == 0 then Run(o, sync, 0)
    else
      var r := Ticks(o, sync, syncMax, n - 1);
      var next := Tick(r.o, r.sync);
      Run(next, Advance(r.sync, syncMax), r.asserted + if next.DOOut then 1 else 0)
  }

  /** The counter after `n` ticks. */
  function Counter(ctr: nat, max: nat, n: nat): nat {
    if n == 0 then ctr else Advance(Counter(ctr, max, n - 1), max)
  }

  /** At how many of `n` ticks a counter was not above `a`. */
  function Low(a: nat, ctr: nat, max: nat, n: nat): nat {
    if n == 0 then 0 else Low(a, ctr, max, n - 1) + if a >= Counter(ctr, max, n - 1) then 1 else 0
  }

  lemma {:induction false} CounterClimbs(ctr: nat, max: nat, n: nat)
    requires ctr + n <= max
    ensures Counter(ctr, max, n) == ctr + n
  {
    if n > 0 { CounterClimbs(ctr, max, n - 1); }
  }

  lemma {:induction false} CounterSplits(ctr: nat, max: nat, m: nat, n: nat)
    ensures Counter(ctr, max, m + n) == Counter(Counter(ctr, max, m), max, n)
  {
    if n > 0 { CounterSplits(ctr, max, m, n - 1); }
  }

  lemma {:induction false} LowSplits(a: nat, ctr: nat, max: nat, m: nat, n: nat)
    ensures Low(a, ctr, max, m + n) == Low(a, ctr, max, m) + Low(a, Counter(ctr, max, m), max, n)
  {
    if n > 0 {
      LowSplits(a, ctr, max, m, n - 1);
      CounterSplits(ctr, max, m, n - 1);
    }
  }

  /** While climbing, the values passed are `ctr` to `ctr + n - 1`. */
  lemma {:induction false} LowClimbs(a: nat, ctr: nat, max: nat, n: nat)
    requires ctr + n <= max + 1
    ensures Low(a, ctr, max, n) == Max(0, Min(a + 1, ctr + n) - Min(a + 1, ctr))
  {
    if n > 0 {
      LowClimbs(a, ctr, max, n - 1);
      CounterClimbs(ctr, max, n - 1);
    }
  }

  /** In any period of `max + 1` ticks, wherever it starts, a counter is not above `a` exactly
      min(a, max) + 1 times. */
  lemma LowPerPeriod(a: nat, ctr: nat, max: nat)
    requires ctr <= max
    ensures Low(a, ctr, max, max + 1) == Min(a, max) + 1
    ensures Counter(ctr, max, max + 1) == ctr
  {
    var up := max + 1 - ctr;
    LowSplits(a, ctr, max, up, ctr);
    LowClimbs(a, ctr, max, up);
    CounterClimbs(ctr, max, up - 1);
    assert Counter(ctr, max, up) == 0;
    LowClimbs(a, 0, max, ctr);
    CounterSplits(ctr, max, up, ctr);
    CounterClimbs(0, max, ctr);
    assert up + ctr == max + 1;
  }

  /** A counter out of range is in range from the next tick on. */
  lemma {:induction false} CounterComesInRange(ctr: nat, max: nat, n: nat)
    requires n > 0 || ctr <= max
    ensures Counter(ctr, max, n) <= max
  {
    if n > 1 || (n == 1 && ctr <= max) { CounterComesInRange(ctr, max, n - 1); }
  }

  // ---------- Duty cycle ----------

  predicate Blinks(o: Output) {
    && (o.DOModeSel == DO_MODE_BLINK_SYNC || o.DOModeSel == DO_MODE_BLINK_ASYNC)
    && IsBlinkEn(if o.DOBypassEn then o else o.(DOBypass := o.DOCtrl))
  }

  /** The counter an output blinks by, and its last value. */
  function CtrOf(o: Output, sync: nat): nat { if o.DOModeSel == DO_MODE_BLINK_SYNC then sync else o.DOBCtr }

  function MaxOf(o: Output, syncMax: nat): nat { if o.DOModeSel == DO_MODE_BLINK_SYNC then syncMax else o.DOB }

  lemma TickBlinks(o: Output, sync: nat, syncMax: nat)
    requires Blinks(o)
    ensures var next := Tick(o, sync);
      && Blinks(next) && next.DOModeSel == o.DOModeSel
      && next.DOA == o.DOA && next.DOB == o.DOB && next.DOInv == o.DOInv
      && next.DOOut == ((o.DOA >= CtrOf(o, sync)) != o.DOInv)
      && CtrOf(next, Advance(sync, syncMax)) == Advance(CtrOf(o, sync), MaxOf(o, syncMax))
  {}

  /** A blinking output over `n` ticks: its counter runs on, and it was asserted at just the ticks at
      which the counter was not above DOA, or at the others if inverted. */
  lemma {:induction false} TicksBlink(o: Output, sync: nat, syncMax: nat, n: nat)
    requires Blinks(o)
    ensures var r := Ticks(o, sync, syncMax, n);
      && Blinks(r.o) && r.o.DOModeSel == o.DOModeSel
      && r.o.DOA == o.DOA && r.o.DOB == o.DOB && r.o.DOInv == o.DOInv
      && CtrOf(r.o, r.sync) == Counter(CtrOf(o, sync), MaxOf(o, syncMax), n)
      && r.asserted == if o.DOInv then n - Low(o.DOA, CtrOf(o, sync), MaxOf(o, syncMax), n)
                       else Low(o.DOA, CtrOf(o, sync), MaxOf(o, syncMax), n)
  {
    hide Tick, Blinks;
    if n > 0 {
      TicksBlink(o, sync, syncMax, n - 1);
      var r := Ticks(o, sync, syncMax, n - 1);
      TickBlinks(r.o, r.sync, syncMax);
    }
  }

  /** A blinking output whose counter is in range: any period of its ticks asserts the output exactly
      min(DOA, last value) + 1 times, or if inverted exactly at the others, and ends where it began. */
  lemma DutyCycle(o: Output, sync: nat, syncMax: nat)
    requires Blinks(o) && CtrOf(o, sync) <= MaxOf(o, syncMax)
    ensures var max := MaxOf(o, syncMax); var r := Ticks(o, sync, syncMax, max + 1);
      && r.asserted == (if o.DOInv then max - Min(o.DOA, max) else Min(o.DOA, max) + 1)
      && CtrOf(r.o, r.sync) == CtrOf(o, sync)
  {
    hide Blinks, Ticks, Low, Counter;
    TicksBlink(o, sync, syncMax, MaxOf(o, syncMax) + 1);
    LowPerPeriod(o.DOA, CtrOf(o, sync), MaxOf(o, syncMax));
  }

  /** So after the first tick at the latest, whatever the counter was. */
  lemma DutyCycleFromAnywhere(o: Output, sync: nat, syncMax: nat, n: nat)
    requires Blinks(o) && n > 0
    ensures var start := Ticks(o, sync, syncMax, n); var max := MaxOf(o, syncMax);
      && Blinks(start.o) && MaxOf(start.o, syncMax) == max
      && Ticks(start.o, start.sync, syncMax, max + 1).asserted
        == if o.DOInv then max - Min(o.DOA, max) else Min(o.DOA, max) + 1
  {
    hide Blinks, Ticks, Low, Counter;
    TicksBlink(o, sync, syncMax, n);
    CounterComesInRange(CtrOf(o, sync), MaxOf(o, syncMax), n);
    DutyCycle(Ticks(o, sync, syncMax, n).o, Ticks(o, sync, syncMax, n).sync, syncMax);
  }
}
