/**
The windows in which an interrupt or a cancel of the SPI driver comes at the wrong moment: exactly when
a NULL transaction is used, and exactly when a completed transfer is reported as failed.
 */
module SpiRaces {
  import opened Options
  import SpiTransfer
  import opened SpiLifecycle

  // ---------- Runs, step by step ----------

  lemma {:induction false} Then(d: Driver, run: seq<Step>, e: Driver, step: Step)
    requires Reaches(d, run, e) && Enabled(e, step)
    ensures Reaches(d, run + [step], Do(e, step))
    decreases |run|
  {
    hide Enabled, Do;
    if run == [] {
      assert run + [step] == [step];
      assert [step][1..] == [];
    } else {
      Then(Do(d, run[0]), run[1..], e, step);
      assert (run + [step])[1..] == run[1..] + [step];
    }
  }

  lemma {:induction false} ThenCarefully(d: Driver, run: seq<Step>, e: Driver, step: Step)
    requires Reaches(d, run, e) && CarefulRun(d, run) && Enabled(e, step) && Careful(e, step)
    ensures Reaches(d, run + [step], Do(e, step)) && CarefulRun(d, run + [step])
    decreases |run|
  {
    hide Enabled, Do, Careful;
    if run == [] {
      assert run + [step] == [step];
      assert [step][1..] == [];
    } else {
      ThenCarefully(Do(d, run[0]), run[1..], e, step);
      assert (run + [step])[1..] == run[1..] + [step];
    }
  }

  // ---------- The last interrupt behind a timeout ----------

  /** A step uses a NULL transaction exactly when it is the next step of a late call. */
  lemma FaultIffLate(d: Driver, step: Step)
    requires Inv(d) && Enabled(d, step) && Careful(d, step)
    ensures Do(d, step).fault <==> Late(d) && (step == Mark || step == CancelCheck)
  {
    hide History, Returns, Acceptable, Retouched, SpiTransfer.ChunkOf, Answers, Outcome;
  }

  /** A call becomes late by the last interrupt only, between its timeout and its read of the status. */
  lemma BecomesLate(d: Driver, step: Step)
    requires Inv(d) && Enabled(d, step) && Careful(d, step) && !Late(d)
    ensures Late(Do(d, step)) <==>
      && step == Interrupt && (d.phase == TimedOut || d.phase == Marked)
      && d.amtDataXferred + d.currentXferAmt == d.transaction.value.t.count
  {
    hide History, Returns, Acceptable, Retouched;
  }

  /** A late call has one step left, and that one faults. */
  lemma LateFaults(d: Driver, step: Step)
    requires Inv(d) && Late(d) && !d.fault && d.transferMode == SPI_MODE_BLOCKING
    ensures Enabled(d, step) <==> step == if d.phase == TimedOut then Mark else CancelCheck
    ensures Enabled(d, step) ==> Do(d, step).fault
  {
    hide History, Returns;
  }

  /** Some transaction was given back between a call's timeout and its read of the status. */
  ghost predicate CameLate(d: Driver) {
    exists n :: 0 <= n < |d.answers| && d.answers[n] != []
      && (d.answers[n][0].during == TimedOut || d.answers[n][0].during == Marked)
  }

  lemma InvOfBlocking(minDmaTransferSize: nat, run: seq<Step>, d: Driver)
    requires Reaches(Opened(SPI_MODE_BLOCKING, minDmaTransferSize), run, d)
    ensures Inv(d) && d.transferMode == SPI_MODE_BLOCKING
  {
    hide Inv, Reaches;
    OpenedIsInv(SPI_MODE_BLOCKING, minDmaTransferSize);
    RunKeepsInv(Opened(SPI_MODE_BLOCKING, minDmaTransferSize), run, d);
  }

  /** Which answers there are: those of the calls that have returned, and at most the last. */
  lemma LastAnswer(d: Driver, n: nat)
    requires Inv(d) && d.transferMode == SPI_MODE_BLOCKING && n < |d.answers| && d.answers[n] != []
    ensures n < |d.returned| ==> Tells(d.returned[n], d.answers[n][0])
    ensures n >= |d.returned| ==>
      n == |d.accepted| - 1 && (Done(d, d.phase) || (d.phase == Draining && (Done(d, Checked) || Done(d, Cancelling))))
  {
    hide Answers, Service, Tells;
    assert |d.answers[n]| + Kept(d, n) == 1;
  }

  lemma LateHasCome(d: Driver)
    requires Inv(d) && d.transferMode == SPI_MODE_BLOCKING && Late(d)
    ensures CameLate(d)
  {
    hide History, Service, Returns;
    var last := |d.accepted| - 1;
    assert d.answers[last] != [] && d.answers[last][0].during == d.phase;
  }

  lemma CameLateIff(d: Driver)
    requires Inv(d) && d.transferMode == SPI_MODE_BLOCKING
    ensures CameLate(d) <==> Late(d)
  {
    if Late(d) { LateHasCome(d); }
    if CameLate(d) {
      var n :| 0 <= n < |d.answers| && d.answers[n] != []
        && (d.answers[n][0].during == TimedOut || d.answers[n][0].during == Marked);
      LastAnswer(d, n);
      hide Inv;
    }
  }

  /** Over every run in blocking mode: the last interrupt of some transaction has come between the
      timeout of its call and the call's read of the status if and only if a NULL transaction has been
      used or is used by the only step that is left. */
  lemma FaultWindow(minDmaTransferSize: nat, run: seq<Step>, d: Driver)
    requires Reaches(Opened(SPI_MODE_BLOCKING, minDmaTransferSize), run, d)
    ensures CameLate(d) <==> d.fault || exists step :: Enabled(d, step) && Do(d, step).fault
    ensures CameLate(d) ==> forall step :: Enabled(d, step) ==> Do(d, step).fault
  {
    hide Reaches, CameLate, Inv;
    InvOfBlocking(minDmaTransferSize, run, d);
    CameLateIff(d);
    if d.fault { FaultIsLate(d); }
    forall step | Enabled(d, step) ensures Do(d, step).fault <==> Late(d) {
      BlockingIsCareful(d, step);
      FaultIffLate(d, step);
      if Late(d) { LateFaults(d, step); }
    }
    if Late(d) && !d.fault {
      LateFaults(d, if d.phase == TimedOut then Mark else CancelCheck);
    }
  }

  lemma FaultIsLate(d: Driver)
    requires Inv(d) && d.fault
    ensures Late(d) && d.transferMode == SPI_MODE_BLOCKING
  {}

  /** Over every run in blocking mode: a call returns false for a completed transaction if and only if
      the last interrupt came between its read of the status and the critical section of its cancel. */
  lemma QuietWindow(minDmaTransferSize: nat, run: seq<Step>, d: Driver, n: nat)
    requires Reaches(Opened(SPI_MODE_BLOCKING, minDmaTransferSize), run, d) && n < |d.returned|
    ensures |d.answers| == |d.accepted| > n && |d.answers[n]| == 1
    ensures !d.returned[n] && d.answers[n][0].msg.status == SPI_TRANSFER_COMPLETED
      <==> d.answers[n][0].during == Checked
    ensures d.returned[n] <==> d.answers[n][0].during == Pending
    ensures d.answers[n][0].msg.status == SPI_TRANSFER_FAILED <==> d.answers[n][0].during == Cancelling
  {
    hide Reaches, Service, Answers;
    InvOfBlocking(minDmaTransferSize, run, d);
    assert Tells(d.returned[n], d.answers[n][0]);
  }

  // ---------- Such runs exist ----------

  predicate OneChunk(t: SpiTransfer.Transfer) { Acceptable(t) && t.count <= SpiTransfer.MAX_DMA_TRANSFER_AMOUNT }

  function Begun(t: SpiTransfer.Transfer): Transaction { Transaction(0, t, SPI_TRANSFER_STARTED) }

  /** A blocking call whose timeout has come while its only chunk is under way. */
  function Overdue(t: SpiTransfer.Transfer): Driver {
    Opened(SPI_MODE_BLOCKING, 0).(
      transaction := Some(Begun(t)), currentXferAmt := t.count, dma := true, phase := TimedOut,
      accepted := [Begun(t)], answers := [[]])
  }

  /** The same call about to start its DMA. */
  function Prepared(t: SpiTransfer.Transfer): Driver {
    Overdue(t).(dma := false, phase := Starting, setups := [Setup(Begun(t), true)])
  }

  lemma PreparedReached(t: SpiTransfer.Transfer)
    requires OneChunk(t)
    ensures exists run :: Reaches(Opened(SPI_MODE_BLOCKING, 0), run, Prepared(t))
  {
    hide Acceptable, Reaches;
    var d0 := Opened(SPI_MODE_BLOCKING, 0);
    NothingYet(d0);
    Then(d0, [], d0, Accept(t));
    var d1 := Do(d0, Accept(t));
    Then(d0, [] + [Accept(t)], d1, Size(0));
    assert Do(d1, Size(0)) == Prepared(t);
  }

  lemma OverdueReached(t: SpiTransfer.Transfer)
    requires OneChunk(t)
    ensures exists run :: Reaches(Opened(SPI_MODE_BLOCKING, 0), run, Overdue(t))
  {
    hide OneChunk, Reaches;
    var d0, d2 := Opened(SPI_MODE_BLOCKING, 0), Prepared(t);
    PreparedReached(t);
    var run :| Reaches(d0, run, d2);
    Then(d0, run, d2, Start(0));
    var d3 := Do(d2, Start(0));
    Then(d0, run + [Start(0)], d3, Timeout);
    assert Do(d3, Timeout) == Overdue(t);
  }

  lemma NothingYet(d: Driver)
    ensures Reaches(d, [], d) && CarefulRun(d, [])
  {}

  /** The last interrupt right after the timeout: the call writes through NULL. */
  lemma TimeoutRace(t: SpiTransfer.Transfer)
    requires OneChunk(t)
    ensures exists run, d :: Reaches(Opened(SPI_MODE_BLOCKING, 0), run, d) && d.fault
  {
    hide OneChunk, Reaches;
    var d0, e0 := Opened(SPI_MODE_BLOCKING, 0), Overdue(t);
    OverdueReached(t);
    var run0 :| Reaches(d0, run0, e0);
    assert t.count <= SpiTransfer.MAX_DMA_TRANSFER_AMOUNT by { OneChunkFits(t); }
    Then(d0, run0, e0, Interrupt);
    var run1, e1 := run0 + [Interrupt], Do(e0, Interrupt);
    Then(d0, run1, e1, Mark);
  }

  lemma OneChunkFits(t: SpiTransfer.Transfer)
    requires OneChunk(t)
    ensures t.count <= SpiTransfer.MAX_DMA_TRANSFER_AMOUNT
  {}

  /** Such a call after it has marked its transaction and read the status. */
  function Convinced(t: SpiTransfer.Transfer): Driver {
    Overdue(t).(transaction := Some(Begun(t).(status := SPI_TRANSFER_FAILED)), phase := Checked)
  }

  lemma ConvincedReached(t: SpiTransfer.Transfer)
    requires OneChunk(t)
    ensures exists run :: Reaches(Opened(SPI_MODE_BLOCKING, 0), run, Convinced(t))
  {
    hide OneChunk, Reaches;
    var d0, e0 := Opened(SPI_MODE_BLOCKING, 0), Overdue(t);
    OverdueReached(t);
    var run0 :| Reaches(d0, run0, e0);
    Then(d0, run0, e0, Mark);
    var run1, e1 := run0 + [Mark], Do(e0, Mark);
    Then(d0, run1, e1, CancelCheck);
    assert Do(e1, CancelCheck) == Convinced(t);
  }

  /** The last interrupt between the read of the status and the critical section: the transfer is
      complete, and the call returns false. */
  lemma QuietRace(t: SpiTransfer.Transfer)
    requires OneChunk(t)
    ensures exists run, d ::
      && Reaches(Opened(SPI_MODE_BLOCKING, 0), run, d) && !d.fault && d.returned == [false]
      && d.answers == [[Answer(Begun(t).(status := SPI_TRANSFER_COMPLETED), Checked)]]
  {
    hide OneChunk, Reaches;
    var d0, e2 := Opened(SPI_MODE_BLOCKING, 0), Convinced(t);
    ConvincedReached(t);
    var run2 :| Reaches(d0, run2, e2);
    assert t.count <= SpiTransfer.MAX_DMA_TRANSFER_AMOUNT by { OneChunkFits(t); }
    Then(d0, run2, e2, Interrupt);
    var run3, e3 := run2 + [Interrupt], Do(e2, Interrupt);
    var answer := Answer(Begun(t).(status := SPI_TRANSFER_COMPLETED), Checked);
    assert [] + [answer] == [answer];
    assert e3.answers[0] == [answer];
    assert e3.answers == [[answer]];
    Then(d0, run3, e3, CancelLock);
    var run4, e4 := run3 + [CancelLock], Do(e3, CancelLock);
    Then(d0, run4, e4, Drain);
  }

  // ---------- A cancel while the transaction is being set up ----------

  /** The count that a cancel stores is seen by the call that is setting up the same transaction, and by no
      other. */
  lemma {:induction false} RetouchesOwn(setups: seq<Setup>, number: nat, count: nat, k: nat)
    requires k < |setups|
    ensures var s, r := setups[k], Retouched(setups, number, count)[k];
      r.msg == s.msg.(t := r.msg.t) && r.msg.t == s.msg.t.(count := r.msg.t.count)
      && r.msg.t.count == if s.msg.number == number then count else s.msg.t.count
  {
    if k > 0 { RetouchesOwn(setups[1..], number, count, k - 1); }
  }

  /** In callback mode, a cancel that comes while the transaction is being set up: the count given back
      has underflowed if the chunk had not been sized, the call sees it, and goes on to start the DMA, whose
      interrupt finds no transaction. */
  lemma EarlyCancel(d: Driver, remaining: nat)
    requires Inv(d) && d.transferMode == SPI_MODE_CALLBACK && d.setups != [] && !d.cancelInProgress
    requires 1 <= remaining <= SpiTransfer.MAX_DMA_TRANSFER_AMOUNT
    ensures Enabled(d, CancelLock) && Enabled(Do(d, CancelLock), CancelClear(remaining))
    ensures var gone := Do(Do(d, CancelLock), CancelClear(remaining)).gone;
      gone.Some? && (!d.setups[0].sized ==> gone.value.t.count == WORD - remaining)
    ensures var e := Do(Do(d, CancelLock), CancelClear(remaining));
      |e.setups| == 1 && e.gone.Some? && e.setups[0].msg.t == e.gone.value.t
    ensures exists run, e :: CarefulRun(Do(d, CancelLock), run) && Reaches(Do(d, CancelLock), run, e) && e.fault
  {
    hide History, Reaches, CarefulRun, Acceptable;
    var e0 := Do(d, CancelLock);
    var e1 := Do(e0, CancelClear(remaining));
    var e2 := Do(e1, CancelRelease);
    NothingYet(e0);
    ThenCarefully(e0, [], e0, CancelClear(remaining));
    var run1 := [] + [CancelClear(remaining)];
    ThenCarefully(e0, run1, e1, CancelRelease);
    var run2 := run1 + [CancelRelease];
    assert |e2.setups| == 1 && e2.transaction.None?;
    if d.setups[0].sized {
      StartedInVain(e0, run2, e2);
    } else {
      ThenCarefully(e0, run2, e2, Size(0));
      StartedInVain(e0, run2 + [Size(0)], Do(e2, Size(0)));
    }
  }

  lemma StartedInVain(d: Driver, run: seq<Step>, e: Driver)
    requires Reaches(d, run, e) && CarefulRun(d, run)
    requires !e.fault && e.transaction.None? && |e.setups| == 1 && e.setups[0].sized
    ensures exists longer, f :: CarefulRun(d, longer) && Reaches(d, longer, f) && f.fault
  {
    hide Reaches, CarefulRun;
    ThenCarefully(d, run, e, Start(0));
    var next := Do(e, Start(0));
    ThenCarefully(d, run + [Start(0)], next, Interrupt);
    assert Do(next, Interrupt).fault;
  }

  /** The exact condition, in callback mode: after a cancel's critical section some run, with no further
      early cancel, uses a NULL transaction if and only if the transaction was still being set up. */
  lemma EarlyCancelIff(d: Driver)
    requires Inv(d) && d.transferMode == SPI_MODE_CALLBACK && !d.cancelInProgress && Enabled(d, CancelLock)
    ensures (exists run, e :: CarefulRun(Do(d, CancelLock), run) && Reaches(Do(d, CancelLock), run, e) && e.fault)
      <==> d.setups != []
  {
    hide Inv, Reaches, CarefulRun, Do, Enabled;
    if d.setups != [] {
      EarlyCancel(d, 1);
    } else {
      StepKeepsInv(d, CancelLock);
      var e0 := Do(d, CancelLock);
      forall run, e | CarefulRun(e0, run) && Reaches(e0, run, e) ensures !e.fault {
        RunKeepsInv(e0, run, e);
        CallbackNeverFaults(e);
      }
    }
  }

  lemma CallbackNeverFaults(d: Driver)
    requires Inv(d) && d.transferMode == SPI_MODE_CALLBACK
    ensures !d.fault
  {}

  /** Such a run exists for every acceptable transaction. */
  lemma EarlyCancelRun(t: SpiTransfer.Transfer)
    requires Acceptable(t) && t.count < WORD
    ensures var d := Do(Opened(SPI_MODE_CALLBACK, 0), Accept(t));
      && Enabled(d, CancelLock)
      && exists run, e :: Reaches(Do(d, CancelLock), run, e) && e.fault
  {
    hide Acceptable, Reaches, CarefulRun, Inv;
    var d := Do(Opened(SPI_MODE_CALLBACK, 0), Accept(t));
    OpenedIsInv(SPI_MODE_CALLBACK, 0);
    StepKeepsInv(Opened(SPI_MODE_CALLBACK, 0), Accept(t));
    EarlyCancel(d, 1);
  }

  // ---------- What a cancel reports ----------

  /** The DMA of the transaction in flight is inside of the chunk the driver has set up. */
  predicate Moving(d: Driver, m: SpiTransfer.Dma) {
    && m.amtDataXferred == d.amtDataXferred && m.currentXferAmt == d.currentXferAmt
    && m.amtDataXferred <= m.got <= m.amtDataXferred + m.currentXferAmt
  }

  /** A cancel gives back the number of elements received exactly if its chunk was not through; with the
      chunk through, and its interrupt cleared by the cancel, it gives back one too few. */
  lemma CanceledCountIff(d: Driver, m: SpiTransfer.Dma)
    requires Inv(d) && Locked(d) && !d.fault && Moving(d, m)
    ensures Enabled(d, CancelClear(SpiTransfer.Remaining(m)))
    ensures var gone := Do(d, CancelClear(SpiTransfer.Remaining(m))).gone;
      var end := d.amtDataXferred + d.currentXferAmt;
      && gone.Some?
      && (gone.value.t.count == m.got <==> m.got < end)
      && (m.got == end ==> gone.value.t.count == m.got - 1)
  {
    hide History, Returns;
    CanceledCount(d, SpiTransfer.Remaining(m));
  }
}
