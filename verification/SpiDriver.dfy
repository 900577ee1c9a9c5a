/**
The SPI driver's object as it is updated in place by calls, interrupts and cancels, and the whole call
in blocking mode with interrupts between any two of its steps.
 */
module SpiDriver {
  import opened Options
  import SpiTransfer
  import opened SpiLifecycle

  /** What interrupts leave alone. */
  predicate Calm(d: Driver, e: Driver) {
    && e.transferMode == d.transferMode && e.minDmaTransferSize == d.minDmaTransferSize
    && e.setups == d.setups && e.phase == d.phase && e.fault == d.fault
    && e.accepted == d.accepted && e.returned == d.returned
  }

  /** A step of the blocking call that goes on to a phase, or faults. */
  predicate Goes(d: Driver, e: Driver, phase: Phase) {
    && e.transferMode == d.transferMode && e.setups == d.setups && e.accepted == d.accepted && e.returned == d.returned
    && (!e.fault ==> e.phase == phase)
  }

  lemma InterruptIsCalm(d: Driver)
    requires Inv(d) && d.dma
    ensures Enabled(d, Interrupt) && Calm(d, DoInterrupt(d))
    ensures d.transaction.Some? && d.amtDataXferred < d.transaction.value.t.count && d.currentXferAmt > 0
  {
    hide History;
  }

  /** What an interrupt does, seen from the transaction in flight. */
  lemma InterruptEffect(d: Driver)
    requires Inv(d) && Enabled(d, Interrupt)
    ensures d.transaction.Some? && !DoInterrupt(d).fault && DoInterrupt(d).phase == d.phase
    ensures var msg, e, end := d.transaction.value, DoInterrupt(d), d.amtDataXferred + d.currentXferAmt;
      if end < msg.t.count then
        && e.transaction == d.transaction && e.answers == d.answers
        && e.amtDataXferred == end && 0 < e.currentXferAmt <= msg.t.count - end
      else
        && end == msg.t.count && e.transaction == None && e.accepted == d.accepted && msg.number < |d.accepted|
        && e.answers == d.answers[msg.number := [Answer(msg.(status := SPI_TRANSFER_COMPLETED), d.phase)]]
        && Answers(d.accepted[msg.number], msg.(status := SPI_TRANSFER_COMPLETED))
  {
    InterruptHistory(d);
    CompletedAnswers(d);
    hide History, BlockingPhases, Returns, CallbackMode, Answers;
  }

  lemma CompletedAnswers(d: Driver)
    requires History(d) && InFlight(d)
    ensures var msg := d.transaction.value;
      msg.number < |d.accepted| && Answers(d.accepted[msg.number], msg.(status := SPI_TRANSFER_COMPLETED))
  {}

  lemma TurnedDown(d: Driver, t: SpiTransfer.Transfer)
    ensures !Acceptable(t) || d.transaction.Some? ==> DoAccept(d, t) == d
  {}

  /** Between the calls of blocking mode. */
  lemma IdleIsFree(d: Driver)
    requires Inv(d) && d.transferMode == SPI_MODE_BLOCKING && d.phase == Idle
    ensures d.transaction.None? && d.setups == [] && !d.fault
    ensures |d.returned| == |d.accepted| == |d.answers|
  {
    hide History;
  }

  /** The driver after a call has returned for a transaction served by DMA. */
  ghost predicate Returned(before: Driver, d: Driver, t: SpiTransfer.Transfer, ok: bool) {
    var n := |before.accepted|;
    && d.accepted == before.accepted + [Transaction(n, t, SPI_TRANSFER_STARTED)]
    && d.returned == before.returned + [ok] && n < |d.answers| && |d.answers[n]| == 1
    && Answers(d.accepted[n], d.answers[n][0].msg) && Tells(ok, d.answers[n][0])
  }

  lemma LastReturned(before: Driver, d: Driver, t: SpiTransfer.Transfer, ok: bool)
    requires Inv(before) && before.transferMode == SPI_MODE_BLOCKING && before.phase == Idle
    requires Inv(d) && d.transferMode == SPI_MODE_BLOCKING
    requires d.accepted == before.accepted + [Transaction(|before.accepted|, t, SPI_TRANSFER_STARTED)]
    requires d.returned == before.returned + [ok]
    ensures Returned(before, d, t, ok)
  {
    hide Service, BlockingPhases, Answers, Tells;
    var n := |before.accepted|;
    assert Tells(d.returned[n], d.answers[n][0]);
  }

  class Object {
    const transferMode: Mode
    const minDmaTransferSize: nat
    var transaction: Option<Transaction>
    var amtDataXferred: nat
    var currentXferAmt: nat
    var cancelInProgress: bool
    var dmaEnabled: bool
    var transferComplete: bool
    /** Where the calls stand, and history. */
    var setups: seq<Setup>
    var phase: Phase
    var gone: Option<Transaction>
    var leaving: map<nat, Transaction>
    var fault: bool
    var accepted: seq<Transaction>
    var answers: seq<seq<Answer>>
    var returned: seq<bool>

    ghost function View(): Driver
      reads this
    {
      Driver(transferMode, minDmaTransferSize, transaction, amtDataXferred, currentXferAmt, cancelInProgress,
             dmaEnabled, transferComplete, setups, phase, gone, leaving, fault, accepted, answers, returned)
    }

    /** A step that can happen, and does not come too early. */
    ghost predicate Ready(step: Step)
      reads this
    {
      Inv(View()) && Enabled(View(), step) && Careful(View(), step)
    }

    constructor (mode: Mode, minDma: nat)
      ensures View() == Opened(mode, minDma) && Inv(View())
    {
      transferMode, minDmaTransferSize := mode, minDma;
      transaction, amtDataXferred, currentXferAmt := None, 0, 0;
      cancelInProgress, dmaEnabled, transferComplete := false, false, false;
      setups, phase, gone, leaving, fault := [], Idle, None, map[], false;
      accepted, answers, returned := [], [], [];
    }

    // ---------- The interrupt ----------

    /** The callback of blocking mode posts the semaphore; in callback mode it is the caller's own. */
    method TransferCallbackFxn(msg: Transaction)
      modifies this`transferComplete, this`answers
      ensures View() == Record(old(View()), msg)
    {
      var n := msg.number;
      answers := if n < |answers| then answers[n := answers[n] + [Answer(msg, phase)]] else answers;
      if transferMode == SPI_MODE_BLOCKING {
        transferComplete := true;
      }
    }

    method SizeChunk(count: nat)
      modifies this`currentXferAmt
      ensures View() == old(View()).(currentXferAmt := SpiTransfer.ChunkOf(U32(count - amtDataXferred)))
    {
      if U32(count - amtDataXferred) > SpiTransfer.MAX_DMA_TRANSFER_AMOUNT {
        currentXferAmt := SpiTransfer.MAX_DMA_TRANSFER_AMOUNT;
      } else {
        currentXferAmt := U32(count - amtDataXferred);
      }
    }

    method HwiStep()
      requires transaction.Some?
      modifies this
      ensures View() == DoInterrupt(old(View()))
    {
      hide U32, SpiTransfer.ChunkOf, Record;
      var msg := transaction.value;
      if U32(msg.t.count - amtDataXferred) > SpiTransfer.MAX_DMA_TRANSFER_AMOUNT {
        amtDataXferred := U32(amtDataXferred + currentXferAmt);
        SizeChunk(msg.t.count);
      } else {
        dmaEnabled := false;
        transaction := None;
        TransferCallbackFxn(msg.(status := SPI_TRANSFER_COMPLETED));
      }
    }

    /** An interrupt either goes on with the chunk right behind the one that is done, or all elements
        are through and the callback gets the whole, completed transaction, its first and only time. */
    method HwiFxn()
      requires Ready(Interrupt)
      modifies this
      ensures View() == DoInterrupt(old(View())) && Inv(View()) && !fault
      ensures old(transaction).Some?
      ensures var msg := old(transaction.value); var end := old(amtDataXferred) + old(currentXferAmt);
        if end < msg.t.count then
          && transaction == old(transaction) && answers == old(answers)
          && amtDataXferred == end && 0 < currentXferAmt <= msg.t.count - end
        else
          && end == msg.t.count && transaction == None && msg.number < |accepted|
          && answers == old(answers)[msg.number := [Answer(msg.(status := SPI_TRANSFER_COMPLETED), phase)]]
          && Answers(accepted[msg.number], msg.(status := SPI_TRANSFER_COMPLETED))
    {
      InterruptKeepsInv(View());
      InterruptEffect(View());
      hide Inv, DoInterrupt, Answers, Enabled, Careful;
      HwiStep();
    }

    /** Any number of interrupts, as far as there are any. */
    method Interrupts()
      requires Inv(View())
      modifies this
      ensures Inv(View()) && Calm(old(View()), View())
    {
      hide Inv;
      var more: bool := *;
      while more && dmaEnabled
        invariant Inv(View()) && Calm(old(View()), View())
        decreases if transaction.None? then 0 else 1 + transaction.value.t.count - amtDataXferred
      {
        InterruptIsCalm(View());
        HwiFxn();
        more := *;
      }
    }

    // ---------- The steps of a call ----------

    /** A call begins to set up a transaction for the DMA. */
    method Register(msg: Transaction)
      modifies this`accepted, this`answers, this`setups, this`phase
      ensures accepted == old(accepted) + [msg] && answers == old(answers) + [[]]
      ensures setups == old(setups) + [Setup(msg, false)]
      ensures phase == if transferMode == SPI_MODE_BLOCKING then Starting else old(phase)
    {
      accepted, answers := accepted + [msg], answers + [[]];
      setups := setups + [Setup(msg, false)];
      phase := if transferMode == SPI_MODE_BLOCKING then Starting else phase;
    }

    /** The transaction becomes the current one, to be polled or to be set up. */
    method Take(t: SpiTransfer.Transfer)
      requires Acceptable(t) && transaction.None?
      modifies this
      ensures View() == DoAccept(old(View()), t)
    {
      hide Acceptable;
      var msg := Transaction(|accepted|, t, SPI_TRANSFER_STARTED);
      transaction, amtDataXferred, currentXferAmt := Some(msg), 0, 0;
      if transferMode == SPI_MODE_BLOCKING && t.count < minDmaTransferSize {
        phase := Polling;
      } else {
        Register(msg);
      }
    }

    /** The critical section at the start of a call. */
    method Accept(t: SpiTransfer.Transfer) returns (ok: bool)
      requires Ready(Step.Accept(t))
      modifies this
      ensures View() == DoAccept(old(View()), t) && Inv(View())
      ensures ok <==> Acceptable(t) && old(transaction).None?
      ensures !ok ==> View() == old(View())
    {
      AcceptKeepsInv(View(), t);
      TurnedDown(View(), t);
      hide Inv, Acceptable, Enabled, Careful, DoAccept;
      if !Acceptable(t) || transaction.Some? {
        return false;
      }
      Take(t);
      ok := true;
    }

    /** `configDMA` sizes the chunk, on the call's own pointer, and then starts the DMA. */
    method SizeFirst()
      requires Ready(Size(0))
      modifies this
      ensures View() == DoSize(old(View()), 0) && Inv(View())
    {
      SetupKeepsInv(View(), Size(0));
      hide Inv, U32, SpiTransfer.ChunkOf;
      SizeChunk(setups[0].msg.t.count);
      setups := setups[0 := setups[0].(sized := true)];
    }

    method StartFirst()
      requires Ready(Start(0))
      modifies this
      ensures View() == DoStart(old(View()), 0) && Inv(View())
    {
      SetupKeepsInv(View(), Start(0));
      hide Inv;
      dmaEnabled := true;
      setups := setups[..0] + setups[1..];
      phase := if phase == Starting then Pending else phase;
    }

    method ConfigDma()
      requires Ready(Size(0)) && phase == Starting && |setups| == 1
      modifies this
      ensures Inv(View()) && phase == Pending && setups == [] && !fault
      ensures accepted == old(accepted) && returned == old(returned)
    {
      hide Inv, DoInterrupt;
      SizeFirst();
      Interrupts();
      StartFirst();
    }

    /** The call leaves the driver. */
    method Leave(step: Step, ok: bool)
      requires Ready(step) && ((step.Woken? && ok) || (step.Drain? && !ok))
      modifies this
      ensures View() == Do(old(View()), step) && Inv(View())
      ensures Calm(old(View()).(phase := Idle, returned := old(returned) + [ok]), View())
    {
      ReturnKeepsInv(View(), step);
      hide Inv;
      transferComplete := false;
      phase := Idle;
      returned := returned + [ok];
    }

    /** What a timed-out call does with its transaction: it marks it as failed. */
    method MarkFailed()
      requires Ready(Mark)
      modifies this
      ensures View() == DoMark(old(View())) && Inv(View())
      ensures Goes(old(View()), View(), Marked)
    {
      TaskKeepsInv(View(), Mark);
      hide Inv;
      if transaction.None? {
        fault := true;
        return;
      }
      transaction := Some(transaction.value.(status := SPI_TRANSFER_FAILED));
      phase := Marked;
    }

    /** The read of the status, without the lock. */
    method CancelCheck()
      requires Ready(Step.CancelCheck)
      modifies this
      ensures View() == DoCancelCheck(old(View())) && Inv(View())
      ensures Goes(old(View()), View(), Checked) || Goes(old(View()), View(), Draining)
    {
      TaskKeepsInv(View(), Step.CancelCheck);
      hide Inv;
      if transaction.None? {
        fault := true;
        return;
      }
      phase := if transaction.value.status == SPI_TRANSFER_FAILED then Checked else Draining;
    }

    /** The critical section of the cancel. */
    method CancelLock()
      requires Ready(Step.CancelLock)
      modifies this
      ensures View() == DoCancelLock(old(View())) && Inv(View())
    {
      LockKeepsInv(View());
      hide Inv;
      if transaction.None? || cancelInProgress {
        phase := if phase == Checked then Draining else phase;
        return;
      }
      cancelInProgress := true;
      dmaEnabled := false;
      phase := if phase == Checked then Cancelling else phase;
    }

    /** The count is stored and the transaction given up. */
    method CancelClear(remaining: nat) returns (msg: Transaction)
      requires Ready(Step.CancelClear(remaining)) && transaction.Some?
      modifies this
      ensures View() == DoCancelClear(old(View()), remaining) && gone == Some(msg)
    {
      hide Inv, Careful, U32;
      msg := transaction.value;
      msg := msg.(t := msg.t.(count := U32(amtDataXferred + (currentXferAmt - remaining))));
      if msg.status == SPI_TRANSFER_STARTED {
        msg := msg.(status := SPI_TRANSFER_CANCELED);
      }
      transaction := None;
      setups := Retouched(setups, msg.number, msg.t.count);
      gone := Some(msg);
    }

    /** The rest of the cancel: the count, the release of the flag, the callback. The count given back
        is what the hardware does not report as remaining, and less than was asked for; the callback is
        the transaction's only one. */
    method CancelRest(remaining: nat)
      requires Ready(Step.CancelClear(remaining))
      modifies this
      ensures Inv(View()) && !cancelInProgress && fault == old(fault) && setups == old(setups)
      ensures accepted == old(accepted) && returned == old(returned) && transaction == None
      ensures phase == if old(phase) == Cancelling then Draining else old(phase)
      ensures old(transaction).Some? && old(transaction.value.number) < |accepted| == |answers|
      ensures var n := old(transaction.value.number);
        && |answers[n]| == 1 && Answers(accepted[n], answers[n][0].msg)
        && answers[n][0].msg.t.count == old(amtDataXferred) + old(currentXferAmt) - remaining < accepted[n].t.count
    {
      ghost var before := View();
      CancelledWell(before, remaining);
      hide Inv, Answers, Enabled, Careful, U32;
      var msg := CancelClear(remaining);
      CancelRelease(msg);
      HandOver(msg);
    }

    method CancelRelease(msg: Transaction)
      requires gone == Some(msg)
      modifies this
      ensures View() == DoCancelRelease(old(View()))
    {
      cancelInProgress := false;
      leaving := leaving[msg.number := msg];
      gone := None;
    }

    method HandOver(msg: Transaction)
      requires msg.number in leaving && leaving[msg.number] == msg
      modifies this
      ensures View() == DoCallback(old(View()), msg.number)
    {
      hide Record;
      TransferCallbackFxn(msg);
      leaving := leaving - {msg.number};
      phase := if phase == Cancelling then Draining else phase;
    }

    /** The end of a call that was not woken in time: the cancel, unless the transaction is over. */
    method GiveUp()
      requires Ready(Timeout) && transferMode == SPI_MODE_BLOCKING
      modifies this
      ensures Inv(View()) && (fault ==> Late(View()))
      ensures accepted == old(accepted) && returned == old(returned)
      ensures !fault ==> phase == Draining
    {
      hide Inv, Do, DoInterrupt, DoMark, DoCancelCheck;
      TimeOut();
      Interrupts();
      MarkFailed();
      if fault { FaultOnlyIfLate(View()); return; }
      Interrupts();
      CancelCheck();
      if fault { FaultOnlyIfLate(View()); return; }
      if phase == Checked {
        CancelAfterCheck();
      }
    }

    /** The cancel from its critical section on. */
    method CancelAfterCheck()
      requires Inv(View()) && transferMode == SPI_MODE_BLOCKING && phase == Checked && !fault
      modifies this
      ensures Inv(View()) && !fault && phase == Draining
      ensures accepted == old(accepted) && returned == old(returned)
    {
      hide Inv, Do, DoInterrupt;
      Interrupts();
      CheckedIsSetUp(View());
      CancelLock();
      if phase == Cancelling {
        CancellingFits(View());
        var remaining :| 1 <= remaining <= currentXferAmt;
        CancelRest(remaining);
      }
    }

    /** From the start of the DMA until the call returns. */
    method Serve() returns (ok: bool)
      requires Ready(Size(0)) && transferMode == SPI_MODE_BLOCKING && phase == Starting && |setups| == 1
      modifies this
      ensures Inv(View()) && accepted == old(accepted) && (fault ==> Late(View()))
      ensures !fault ==> phase == Idle && returned == old(returned) + [ok]
    {
      hide Inv, Do;
      ConfigDma();
      Interrupts();
      if transferComplete {
        Leave(Woken, true);
        return true;
      }
      GiveUp();
      ok := false;
      if !fault {
        Leave(Drain, false);
      }
    }

    /** The whole call in blocking mode, with interrupts between its steps and the timeout at any
        moment. It has used a NULL transaction only if it was late; otherwise it leaves the driver idle,
        and a transaction served by DMA has had its one callback, of which the value returned tells. */
    method Transfer(t: SpiTransfer.Transfer) returns (ok: bool)
      requires Inv(View()) && transferMode == SPI_MODE_BLOCKING && phase == Idle && t.count < WORD
      modifies this
      ensures Inv(View()) && (fault ==> Late(View()))
      ensures !fault ==> phase == Idle
      ensures !Acceptable(t) ==> !ok && View() == old(View())
      ensures Acceptable(t) && ByPolling(old(View()), t) ==> ok && accepted == old(accepted) && !fault
      ensures Acceptable(t) && !ByPolling(old(View()), t) && !fault ==> Returned(old(View()), View(), t, ok)
    {
      hide Inv, Acceptable, Returned, DoEndPolling;
      ghost var before := View();
      IdleIsFree(before);
      ok := Accept(t);
      if !ok { return; }
      if phase == Polling {
        EndPolling();
        return;
      }
      ok := Serve();
      if !fault {
        LastReturned(before, View(), t, ok);
      }
    }

    method EndPolling()
      requires Ready(Step.EndPolling) && transaction.Some?
      modifies this
      ensures View() == DoEndPolling(old(View())) && Inv(View())
      ensures Calm(old(View()).(phase := Idle), View())
    {
      TaskKeepsInv(View(), Step.EndPolling);
      hide Inv;
      transaction := None;
      phase := Idle;
    }

    method TimeOut()
      requires Ready(Timeout)
      modifies this`phase
      ensures View() == Do(old(View()), Timeout) && Inv(View())
      ensures Goes(old(View()), View(), TimedOut)
    {
      TaskKeepsInv(View(), Timeout);
      hide Inv;
      phase := TimedOut;
    }
  }

  lemma FaultOnlyIfLate(d: Driver)
    requires Inv(d) && d.fault
    ensures Late(d)
  {}

  lemma CheckedIsSetUp(d: Driver)
    requires Inv(d) && d.phase == Checked
    ensures d.setups == [] && d.gone.None? && !d.cancelInProgress
  {
    hide History, Returns;
  }

  /** A blocking call in its cancel has a chunk under way. */
  lemma CancellingFits(d: Driver)
    requires Inv(d) && d.phase == Cancelling && Locked(d)
    ensures !d.fault && d.setups == [] && 1 <= d.currentXferAmt <= SpiTransfer.MAX_DMA_TRANSFER_AMOUNT
  {
    hide History;
  }

  /** The three steps after the cancel's critical section, one after the other. */
  lemma CancelledWell(d: Driver, remaining: nat)
    requires Inv(d) && Enabled(d, Step.CancelClear(remaining))
    ensures d.transaction.Some? && d.setups == [] && d.transaction.value.number < |d.accepted| == |d.answers|
    ensures var n := d.transaction.value.number; var c := DoCancelClear(d, remaining);
      && !c.fault && c.gone.Some? && c.gone.value.number == n && Enabled(c, CancelRelease)
      && var r := DoCancelRelease(c);
      && Enabled(r, Callback(n)) && r.leaving[n] == c.gone.value && Inv(DoCallback(r, n))
      && DoCallback(r, n).answers == d.answers[n := [Answer(c.gone.value, d.phase)]]
      && Answers(d.accepted[n], c.gone.value)
      && c.gone.value.t.count == d.amtDataXferred + d.currentXferAmt - remaining < d.accepted[n].t.count
  {
    var n := d.transaction.value.number;
    CanceledCount(d, remaining);
    ClearKeepsInv(d, remaining);
    var c := DoCancelClear(d, remaining);
    ReleaseKeepsInv(c);
    var r := DoCancelRelease(c);
    CallbackKeepsInv(r, n);
    CallbackHistory(r, n);
    assert Answered(c, c.gone.value);
    hide BlockingPhases, Returns, CallbackMode;
  }
}
