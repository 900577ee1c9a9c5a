/**
The life of SPI transactions: accepted by a call, served by interrupts or by polling, ended by the
last interrupt, by a cancel or by a timeout. Task code and interrupts interleave; each stretch of code
between two points where they can matter to each other is one step.
 */
module SpiLifecycle {
  import opened Options
  import opened SpiTransfer

  datatype Status = SPI_TRANSFER_STARTED | SPI_TRANSFER_COMPLETED | SPI_TRANSFER_CANCELED | SPI_TRANSFER_FAILED

  datatype Mode = SPI_MODE_BLOCKING | SPI_MODE_CALLBACK

  /** The caller's transaction: the number it was accepted under, what to transfer, its status. */
  datatype Transaction = Transaction(number: nat, t: Transfer, status: Status)

  /** A call between its acceptance and the start of the DMA, with its own pointer to the transaction;
      whether it has set the size of the first chunk. */
  datatype Setup = Setup(msg: Transaction, sized: bool)

  /** Where a call in blocking mode stands: not in the driver; in the polling loop; accepted; waiting
      on the semaphore; timed out; marked as failed; in the cancel with the status found to be failed,
      but not in its critical section; beyond that section; about to take back the extra post. */
  datatype Phase = Idle | Polling | Starting | Pending | TimedOut | Marked | Checked | Cancelling | Draining

  /** A callback: the transaction it was given, and where the blocking call stood. */
  datatype Answer = Answer(msg: Transaction, during: Phase)

  /** The object; the hardware's DMA enable; the semaphore; the calls that are setting up; the phase of
      a blocking call; the transaction that the cancel in progress has given up; those given up by
      cancels that have ended but for their callback; whether a NULL transaction was used. And history:
      the DMA transactions accepted, the callbacks for each, and what the blocking calls returned. */
  datatype Driver = Driver(
    transferMode: Mode, minDmaTransferSize: nat,
    transaction: Option<Transaction>, amtDataXferred: nat, currentXferAmt: nat, cancelInProgress: bool,
    dma: bool, transferComplete: bool,
    setups: seq<Setup>, phase: Phase, gone: Option<Transaction>, leaving: map<nat, Transaction>, fault: bool,
    accepted: seq<Transaction>, answers: seq<seq<Answer>>, returned: seq<bool>)

  function Opened(mode: Mode, minDmaTransferSize: nat): Driver {
    Driver(mode, minDmaTransferSize, None, 0, 0, false, false, false, [], Idle, None, map[], false, [], [], [])
  }

  /** The steps: a call up to the end of its first critical section; the end of the polling loop; in
      `configDMA` the setting of the chunk's size and the start of the DMA; an interrupt; the ways on
      for a waiting call; the cancel's read of the status through the pointer, its critical section,
      the hand-over with the hardware's remaining count, the release of the flag, and the callback; and
      the taking back of the extra post. */
  datatype Step =
    | Accept(t: Transfer)
    | EndPolling
    | Size(k: nat)
    | Start(k: nat)
    | Interrupt
    | Woken
    | Timeout
    | Mark
    | CancelCheck
    | CancelLock
    | CancelClear(remaining: nat)
    | CancelRelease
    | Callback(number: nat)
    | Drain

  const WORD: nat := 0x1_0000_0000

  /** An unsigned 32-bit result. */
  function U32(x: int): nat { if 0 <= x < WORD then x else x % WORD }

  /** What a call checks of the transaction itself. */
  predicate Acceptable(t: Transfer) {
    t.count > 0 && (t.tx != 0 || t.rx != 0) && (t.width == 1 || t.width == 2)
    && t.tx % t.width == 0 && t.rx % t.width == 0
  }

  predicate ByPolling(d: Driver, t: Transfer) {
    d.transferMode == SPI_MODE_BLOCKING && t.count < d.minDmaTransferSize
  }

  /** When a step can happen. In blocking mode one task uses the handle, and it cancels only after a
      timeout. The hardware's remaining count is at least 1, and no more than the chunk that was set up. */
  predicate Enabled(d: Driver, step: Step) {
    && !d.fault
    && match step
       case Accept(t) => d.phase == Idle && t.count < WORD
       case EndPolling => d.phase == Polling
       case Size(k) => k < |d.setups| && !d.setups[k].sized
       case Start(k) => k < |d.setups| && d.setups[k].sized
       case Interrupt => d.dma
       case Woken => d.phase == Pending && d.transferComplete
       case Timeout => d.phase == Pending && !d.transferComplete
       case Mark => d.phase == TimedOut
       case CancelCheck => d.phase == Marked
       case CancelLock => d.transferMode == SPI_MODE_CALLBACK || d.phase == Checked
       case CancelClear(remaining) =>
         && d.cancelInProgress && d.gone.None? && 1 <= remaining <= MAX_DMA_TRANSFER_AMOUNT
         && (d.setups == [] ==> remaining <= d.currentXferAmt)
       case CancelRelease => d.gone.Some?
       case Callback(number) => number in d.leaving
       case Drain => d.phase == Draining
  }

  // ---------- The steps ----------

  function DoAccept(d: Driver, t: Transfer): Driver {
    if !Acceptable(t) || d.transaction.Some? then d
    else
      var msg := Transaction(|d.accepted|, t, SPI_TRANSFER_STARTED);
      var next := d.(transaction := Some(msg), amtDataXferred := 0, currentXferAmt := 0);
      if ByPolling(d, t) then
        next.(phase := Polling)
      else
        next.(accepted := d.accepted + [msg], answers := d.answers + [[]], setups := d.setups + [Setup(msg, false)],
              phase := if d.transferMode == SPI_MODE_BLOCKING then Starting else d.phase)
  }

  function DoEndPolling(d: Driver): Driver {
    if d.transaction.None? then d.(fault := true) else d.(transaction := None, phase := Idle)
  }

  function DoSize(d: Driver, k: nat): Driver
    requires k < |d.setups|
  {
    d.(currentXferAmt := ChunkOf(U32(d.setups[k].msg.t.count - d.amtDataXferred)),
       setups := d.setups[k := d.setups[k].(sized := true)])
  }

  function DoStart(d: Driver, k: nat): Driver
    requires k < |d.setups|
  {
    d.(setups := d.setups[..k] + d.setups[k + 1..], dma := true,
       phase := if d.phase == Starting then Pending else d.phase)
  }

  /** The callback; in blocking mode it posts the semaphore. */
  function Record(d: Driver, msg: Transaction): Driver {
    var n := msg.number;
    d.(answers := if n < |d.answers| then d.answers[n := d.answers[n] + [Answer(msg, d.phase)]] else d.answers,
       transferComplete := d.transferMode == SPI_MODE_BLOCKING || d.transferComplete)
  }

  function DoInterrupt(d: Driver): Driver {
    match d.transaction
    case None => d.(fault := true)
    case Some(msg) =>
      if U32(msg.t.count - d.amtDataXferred) > MAX_DMA_TRANSFER_AMOUNT then
        var amt := U32(d.amtDataXferred + d.currentXferAmt);
        d.(amtDataXferred := amt, currentXferAmt := ChunkOf(U32(msg.t.count - amt)))
      else
        Record(d.(dma := false, transaction := None), msg.(status := SPI_TRANSFER_COMPLETED))
  }

  function DoMark(d: Driver): Driver {
    match d.transaction
    case None => d.(fault := true)
    case Some(msg) => d.(transaction := Some(msg.(status := SPI_TRANSFER_FAILED)), phase := Marked)
  }

  /** The status is read through the pointer, outside of the critical section. */
  function DoCancelCheck(d: Driver): Driver {
    match d.transaction
    case None => d.(fault := true)
    case Some(msg) => d.(phase := if msg.status == SPI_TRANSFER_FAILED then Checked else Draining)
  }

  function DoCancelLock(d: Driver): Driver {
    if d.transaction.None? || d.cancelInProgress then d.(phase := if d.phase == Checked then Draining else d.phase)
    else d.(cancelInProgress := true, dma := false, phase := if d.phase == Checked then Cancelling else d.phase)
  }

  /** Calls that are still setting up a transaction see its new count. */
  function Retouched(setups: seq<Setup>, number: nat, count: nat): (r: seq<Setup>)
    ensures |r| == |setups| && forall k :: 0 <= k < |r| ==> r[k].sized == setups[k].sized
  {
    if setups == [] then []
    else
      var s := setups[0];
      [if s.msg.number == number then s.(msg := s.msg.(t := s.msg.t.(count := count))) else s]
      + Retouched(setups[1..], number, count)
  }

  function DoCancelClear(d: Driver, remaining: nat): Driver {
    match d.transaction
    case None => d.(fault := true)
    case Some(msg) =>
      var count := U32(d.amtDataXferred + (d.currentXferAmt - remaining));
      var status := if msg.status == SPI_TRANSFER_STARTED then SPI_TRANSFER_CANCELED else msg.status;
      d.(transaction := None, gone := Some(msg.(t := msg.t.(count := count), status := status)),
         setups := Retouched(d.setups, msg.number, count))
  }

  function DoCancelRelease(d: Driver): Driver
    requires d.gone.Some?
  {
    d.(cancelInProgress := false, gone := None, leaving := d.leaving[d.gone.value.number := d.gone.value])
  }

  function DoCallback(d: Driver, number: nat): Driver
    requires number in d.leaving
  {
    var next := Record(d, d.leaving[number]);
    next.(leaving := d.leaving - {number}, phase := if d.phase == Cancelling then Draining else d.phase)
  }

  function Do(d: Driver, step: Step): Driver
    requires Enabled(d, step)
  {
    match step
    case Accept(t) => DoAccept(d, t)
    case EndPolling => DoEndPolling(d)
    case Size(k) => DoSize(d, k)
    case Start(k) => DoStart(d, k)
    case Interrupt => DoInterrupt(d)
    case Woken => d.(transferComplete := false, phase := Idle, returned := d.returned + [true])
    case Timeout => d.(phase := TimedOut)
    case Mark => DoMark(d)
    case CancelCheck => DoCancelCheck(d)
    case CancelLock => DoCancelLock(d)
    case CancelClear(remaining) => DoCancelClear(d, remaining)
    case CancelRelease => DoCancelRelease(d)
    case Callback(number) => DoCallback(d, number)
    case Drain => d.(transferComplete := false, phase := Idle, returned := d.returned + [false])
  }

  // ---------- The invariant ----------

  /** A transaction as the callback gets it, against the one that was accepted. */
  predicate Answers(asked: Transaction, msg: Transaction) {
    && msg.number == asked.number
    && msg.t == asked.t.(count := msg.t.count)
    && msg.status != SPI_TRANSFER_STARTED
    && (if msg.status == SPI_TRANSFER_COMPLETED then msg.t.count == asked.t.count else msg.t.count < asked.t.count)
  }

  /** A transaction is being served by DMA. */
  predicate InFlight(d: Driver) {
    d.transaction.Some? && d.phase != Polling
  }

  /** A cancel has gone through its critical section and not yet handed the transaction over. */
  predicate Locked(d: Driver) {
    d.cancelInProgress && d.gone.None?
  }

  predicate IsNumber(o: Option<Transaction>, n: nat) {
    o.Some? && o.value.number == n
  }

  /** How often a transaction is in flight or on its way to the callback. */
  function Kept(d: Driver, n: nat): nat {
    (if InFlight(d) && IsNumber(d.transaction, n) then 1 else 0)
    + (if IsNumber(d.gone, n) then 1 else 0)
    + (if n in d.leaving then 1 else 0)
  }

  /** A transaction on its way to the callback, or given to it, answers the one accepted. */
  predicate Answered(d: Driver, msg: Transaction) {
    msg.number < |d.accepted| && Answers(d.accepted[msg.number], msg)
  }

  /** Each accepted transaction is in just one place: in flight, on its way, or given to the callback. */
  ghost predicate History(d: Driver) {
    && |d.answers| == |d.accepted|
    && (forall n :: 0 <= n < |d.accepted| ==> d.accepted[n].number == n && d.accepted[n].t.count < WORD)
    && (forall n :: 0 <= n < |d.accepted| ==> |d.answers[n]| + Kept(d, n) == 1)
    && (forall n :: 0 <= n < |d.accepted| && d.answers[n] != [] ==>
         d.answers[n][0].msg.number == n && Answered(d, d.answers[n][0].msg))
    && (forall n :: n in d.leaving ==> d.leaving[n].number == n && Answered(d, d.leaving[n]))
    && (d.gone.Some? ==> Answered(d, d.gone.value))
    && (InFlight(d) ==>
         d.transaction.value.number < |d.accepted| && d.transaction.value.t == d.accepted[d.transaction.value.number].t)
  }

  /** The chunk of the transaction in flight, which starts at a multiple of 1024 and ends at the next
      or at the end of the transaction; and DMA runs exactly for a transaction that has been set up and
      is not being cancelled. */
  predicate Service(d: Driver) {
    && (d.setups != [] ==>
         && InFlight(d) && |d.setups| == 1 && d.setups[0].msg == d.transaction.value
         && d.amtDataXferred == 0 && (!d.setups[0].sized ==> d.currentXferAmt == 0))
    && (InFlight(d) ==>
         && d.amtDataXferred < d.transaction.value.t.count < WORD
         && d.amtDataXferred % MAX_DMA_TRANSFER_AMOUNT == 0
         && ((d.setups != [] && !d.setups[0].sized)
             || d.currentXferAmt == ChunkOf(d.transaction.value.t.count - d.amtDataXferred)))
    && (d.dma <==> InFlight(d) && d.setups == [] && !Locked(d))
    && (Locked(d) ==> InFlight(d) && d.setups == [])
    && (d.gone.Some? ==> d.cancelInProgress)
  }

  predicate CallbackMode(d: Driver) {
    d.phase == Idle && !d.fault && (InFlight(d) ==> d.transaction.value.status == SPI_TRANSFER_STARTED)
  }

  /** No cancel is under way. */
  predicate Quiet(d: Driver) {
    d.gone.None? && d.leaving == map[] && !d.cancelInProgress
  }

  /** The blocking call's transaction is in flight. */
  predicate Serving(d: Driver, status: Status) {
    && Quiet(d) && !d.transferComplete && d.transaction.Some?
    && d.transaction.value.status == status && d.transaction.value.number == |d.accepted| - 1
  }

  /** How a blocking call's transaction ends: the interrupt completes it, and the cancel leaves it
      failed. */
  function Outcome(during: Phase): Status {
    if during == Cancelling then SPI_TRANSFER_FAILED else SPI_TRANSFER_COMPLETED
  }

  /** The blocking call's transaction has been given back in some phase, and the semaphore posted. */
  predicate Done(d: Driver, during: Phase) {
    && Quiet(d) && d.transferComplete && d.transaction.None? && d.setups == []
    && |d.accepted| > 0 && |d.answers| == |d.accepted| && |d.answers[|d.accepted| - 1]| == 1
    && d.answers[|d.accepted| - 1][0].during == during
    && d.answers[|d.accepted| - 1][0].msg.status == Outcome(during)
  }

  /** In blocking mode the semaphore is posted exactly when the waiting call's own transaction is
      over, so it is never posted between calls. */
  predicate BlockingPhases(d: Driver) {
    match d.phase
    case Idle => d.transaction.None? && Quiet(d) && !d.transferComplete && d.setups == []
    case Polling => d.transaction.Some? && Quiet(d) && !d.transferComplete && d.setups == []
    case Starting => Serving(d, SPI_TRANSFER_STARTED) && d.setups != []
    case Pending => Done(d, Pending) || (Serving(d, SPI_TRANSFER_STARTED) && d.setups == [])
    case TimedOut => Done(d, TimedOut) || (Serving(d, SPI_TRANSFER_STARTED) && d.setups == [])
    case Marked => Done(d, Marked) || (Serving(d, SPI_TRANSFER_FAILED) && d.setups == [])
    case Checked => Done(d, Checked) || (Serving(d, SPI_TRANSFER_FAILED) && d.setups == [])
    case Cancelling => Leaves(d)
    case Draining => Done(d, Checked) || Done(d, Cancelling)
  }

  /** The failed transaction on its way from the cancel's critical section to the callback. */
  predicate Leaves(d: Driver) {
    && !d.transferComplete && d.setups == [] && |d.accepted| > 0
    && (match d.transaction
        case Some(msg) =>
          d.cancelInProgress && d.gone.None? && d.leaving == map[] && IsFailed(msg, |d.accepted| - 1)
        case None =>
          if d.cancelInProgress then d.gone.Some? && d.leaving == map[] && IsFailed(d.gone.value, |d.accepted| - 1)
          else
            && d.gone.None? && d.leaving.Keys == {|d.accepted| - 1}
            && IsFailed(d.leaving[|d.accepted| - 1], |d.accepted| - 1))
  }

  predicate IsFailed(msg: Transaction, n: int) {
    msg.status == SPI_TRANSFER_FAILED && msg.number == n
  }

  /** What a returned call's value says about its callback. */
  predicate Tells(value: bool, answer: Answer) {
    && (answer.during == Pending || answer.during == Checked || answer.during == Cancelling)
    && (value <==> answer.during == Pending)
    && answer.msg.status == Outcome(answer.during)
  }

  ghost predicate Returns(d: Driver) {
    && |d.returned| + (if d.phase == Idle || d.phase == Polling then 0 else 1) == |d.accepted| == |d.answers|
    && (forall n :: 0 <= n < |d.returned| ==> |d.answers[n]| == 1 && Tells(d.returned[n], d.answers[n][0]))
    && (d.fault ==> Late(d))
  }

  /** A call has timed out and not yet read the status, and its transaction is over all the same. */
  predicate Late(d: Driver) {
    d.transaction.None? && (d.phase == TimedOut || d.phase == Marked)
  }

  ghost predicate Inv(d: Driver) {
    && History(d) && Service(d)
    && (if d.transferMode == SPI_MODE_CALLBACK then CallbackMode(d) else BlockingPhases(d) && Returns(d))
  }

  /** A cancel does not come while the transaction is still being set up. */
  predicate Careful(d: Driver, step: Step) {
    step == CancelLock && d.transaction.Some? && !d.cancelInProgress ==> d.setups == []
  }

  lemma OpenedIsInv(mode: Mode, minDmaTransferSize: nat)
    ensures Inv(Opened(mode, minDmaTransferSize))
  {}

  // ---------- Every step keeps the invariant ----------

  /** A change that leaves the history alone. */
  lemma HistoryStays(d: Driver, e: Driver)
    requires History(d) && e.accepted == d.accepted && e.answers == d.answers
    requires e.gone == d.gone && e.leaving == d.leaving && InFlight(e) == InFlight(d)
    requires InFlight(d) ==>
      e.transaction.value.number == d.transaction.value.number && e.transaction.value.t == d.transaction.value.t
    ensures History(e)
  {
    forall n | 0 <= n < |d.accepted| ensures Kept(e, n) == Kept(d, n) {}
  }

  lemma AcceptKeepsInv(d: Driver, t: Transfer)
    requires Inv(d) && Enabled(d, Accept(t))
    ensures Inv(DoAccept(d, t))
  {
    var e := DoAccept(d, t);
    if Acceptable(t) && d.transaction.None? {
      if ByPolling(d, t) {
        HistoryStays(d, e);
      } else {
        NewHistory(d, t);
      }
    }
  }

  lemma NewHistory(d: Driver, t: Transfer)
    requires History(d) && Service(d) && Enabled(d, Accept(t))
    requires Acceptable(t) && d.transaction.None? && !ByPolling(d, t)
    ensures History(DoAccept(d, t))
  {
    hide Answers, Acceptable, Service;
    var e := DoAccept(d, t);
    forall n | 0 <= n < |e.accepted| ensures |e.answers[n]| + Kept(e, n) == 1 {
      if n < |d.accepted| { assert Kept(e, n) == Kept(d, n); }
    }
  }

  lemma SetupKeepsInv(d: Driver, step: Step)
    requires Inv(d) && Enabled(d, step) && (step.Size? || step.Start?)
    ensures Inv(Do(d, step))
  {
    HistoryStays(d, Do(d, step));
    hide History, Acceptable;
  }

  /** The callback given for one of the kept transactions. */
  lemma Recorded(d: Driver, e: Driver, msg: Transaction)
    requires History(d) && e.accepted == d.accepted
    requires Answered(d, msg) && Kept(d, msg.number) == 1 && Kept(e, msg.number) == 0
    requires e.answers == d.answers[msg.number := d.answers[msg.number] + [Answer(msg, d.phase)]]
    requires forall n :: 0 <= n < |d.accepted| && n != msg.number ==> Kept(e, n) == Kept(d, n)
    requires forall n :: n in e.leaving ==> n in d.leaving && e.leaving[n] == d.leaving[n]
    requires e.gone == d.gone
    requires InFlight(e) ==> InFlight(d) && e.transaction == d.transaction
    ensures History(e) && e.answers[msg.number] == [Answer(msg, d.phase)]
  {
    hide Answers, Kept;
  }

  lemma InterruptHistory(d: Driver)
    requires History(d) && Service(d) && Enabled(d, Interrupt)
    ensures History(DoInterrupt(d))
    ensures DoInterrupt(d).transaction.None? ==>
      var n := d.transaction.value.number;
      n < |d.accepted| && DoInterrupt(d).answers
        == d.answers[n := [Answer(d.transaction.value.(status := SPI_TRANSFER_COMPLETED), d.phase)]]
  {
    var e := DoInterrupt(d);
    if e.transaction.Some? {
      HistoryStays(d, e);
    } else {
      var msg := d.transaction.value.(status := SPI_TRANSFER_COMPLETED);
      assert Kept(d, msg.number) == 1;
      Recorded(d, e, msg);
    }
  }

  lemma InterruptService(d: Driver)
    requires History(d) && Service(d) && Enabled(d, Interrupt)
    ensures Service(DoInterrupt(d)) && InFlight(d)
  {
    assert InFlight(d) ==> d.transaction.value.number < |d.accepted|;
    hide History;
  }

  lemma InterruptReturns(d: Driver)
    requires Inv(d) && d.transferMode == SPI_MODE_BLOCKING && Enabled(d, Interrupt)
    ensures Returns(DoInterrupt(d))
  {
    InterruptHistory(d);
    InterruptService(d);
    hide History, Service, Acceptable, Tells;
  }

  lemma InterruptPhases(d: Driver)
    requires Inv(d) && d.transferMode == SPI_MODE_BLOCKING && Enabled(d, Interrupt)
    ensures BlockingPhases(DoInterrupt(d))
  {
    InterruptHistory(d);
    InterruptService(d);
    hide Acceptable, Returns, Leaves;
  }

  lemma InterruptKeepsInv(d: Driver)
    requires Inv(d) && Enabled(d, Interrupt)
    ensures Inv(DoInterrupt(d))
  {
    hide History, Service, Acceptable, Returns, BlockingPhases;
    InterruptHistory(d);
    InterruptService(d);
    if d.transferMode == SPI_MODE_BLOCKING {
      InterruptReturns(d);
      InterruptPhases(d);
    }
  }

  /** The call returns. */
  lemma ReturnKeepsInv(d: Driver, step: Step)
    requires Inv(d) && Enabled(d, step) && (step.Woken? || step.Drain?)
    ensures Inv(Do(d, step))
  {
    HistoryStays(d, Do(d, step));
    hide History, Acceptable;
    var n := |d.returned|;
    assert Tells(Do(d, step).returned[n], d.answers[n][0]);
  }

  lemma EndPollingKeepsInv(d: Driver)
    requires Inv(d) && Enabled(d, EndPolling)
    ensures Inv(DoEndPolling(d))
  {
    HistoryStays(d, DoEndPolling(d));
    hide History, Acceptable, Tells, Answers;
  }

  lemma TimeoutKeepsInv(d: Driver)
    requires Inv(d) && Enabled(d, Timeout)
    ensures Inv(d.(phase := TimedOut))
  {
    HistoryStays(d, d.(phase := TimedOut));
    hide History, Acceptable, Tells, Answers;
  }

  lemma MarkKeepsInv(d: Driver)
    requires Inv(d) && Enabled(d, Mark)
    ensures Inv(DoMark(d))
  {
    HistoryStays(d, DoMark(d));
    hide History, Acceptable, Tells, Answers;
  }

  lemma CheckKeepsInv(d: Driver)
    requires Inv(d) && Enabled(d, CancelCheck)
    ensures Inv(DoCancelCheck(d))
  {
    HistoryStays(d, DoCancelCheck(d));
    hide History, Acceptable, Tells, Answers;
  }

  lemma TaskKeepsInv(d: Driver, step: Step)
    requires Inv(d) && Enabled(d, step)
    requires step.EndPolling? || step.Timeout? || step.Mark? || step.CancelCheck?
    ensures Inv(Do(d, step))
  {
    hide Inv;
    match step
    case EndPolling => EndPollingKeepsInv(d);
    case Timeout => TimeoutKeepsInv(d);
    case Mark => MarkKeepsInv(d);
    case CancelCheck => CheckKeepsInv(d);
  }

  lemma LockKeepsInv(d: Driver)
    requires Inv(d) && Enabled(d, CancelLock) && Careful(d, CancelLock)
    ensures Inv(DoCancelLock(d))
  {
    HistoryStays(d, DoCancelLock(d));
    hide History, Acceptable;
  }

  lemma ClearHistory(d: Driver, remaining: nat)
    requires History(d) && Service(d) && Enabled(d, CancelClear(remaining))
    requires d.transaction.Some? ==> d.transaction.value.status != SPI_TRANSFER_COMPLETED
    ensures History(DoCancelClear(d, remaining))
  {
    var e := DoCancelClear(d, remaining);
    var n := d.transaction.value.number;
    assert Answered(d, e.gone.value);
    forall k | 0 <= k < |d.accepted| ensures Kept(e, k) == Kept(d, k) {}
    hide Answers, Kept;
  }

  lemma ClearKeepsInv(d: Driver, remaining: nat)
    requires Inv(d) && Enabled(d, CancelClear(remaining))
    ensures Inv(DoCancelClear(d, remaining))
  {
    ClearHistory(d, remaining);
    hide History;
  }

  lemma ReleaseHistory(d: Driver)
    requires History(d) && Enabled(d, CancelRelease)
    ensures History(DoCancelRelease(d))
  {
    hide Answers;
    var e := DoCancelRelease(d);
    assert Kept(d, d.gone.value.number) == 1;
    forall n | 0 <= n < |d.accepted| ensures Kept(e, n) == Kept(d, n) {}
  }

  lemma ReleaseKeepsInv(d: Driver)
    requires Inv(d) && Enabled(d, CancelRelease)
    ensures Inv(DoCancelRelease(d))
  {
    ReleaseHistory(d);
    hide History, Tells;
  }

  lemma CallbackHistory(d: Driver, number: nat)
    requires History(d) && Enabled(d, Callback(number))
    ensures History(DoCallback(d, number)) && number < |d.accepted|
    ensures DoCallback(d, number).answers == d.answers[number := [Answer(d.leaving[number], d.phase)]]
  {
    var msg := d.leaving[number];
    assert Kept(d, number) == 1;
    Recorded(d, DoCallback(d, number), msg);
  }

  lemma BlockingCallback(d: Driver, number: nat)
    requires Inv(d) && Enabled(d, Callback(number)) && d.transferMode == SPI_MODE_BLOCKING
    ensures BlockingPhases(DoCallback(d, number)) && Returns(DoCallback(d, number))
  {
    CallbackHistory(d, number);
    hide History, Acceptable, ChunkOf, Service, Tells, Record;
    RecordPosts(d, d.leaving[number]);
    assert d.phase == Cancelling && Leaves(d);
  }

  lemma RecordPosts(d: Driver, msg: Transaction)
    ensures Record(d, msg)
      == d.(answers := Record(d, msg).answers,
            transferComplete := d.transferMode == SPI_MODE_BLOCKING || d.transferComplete)
  {}

  lemma CallbackKeepsInv(d: Driver, number: nat)
    requires Inv(d) && Enabled(d, Callback(number))
    ensures Inv(DoCallback(d, number))
  {
    CallbackHistory(d, number);
    if d.transferMode == SPI_MODE_BLOCKING { BlockingCallback(d, number); }
    hide History, Acceptable, ChunkOf, BlockingPhases, Returns;
  }

  /** Every step keeps the invariant, a cancel if it does not come too early. */
  lemma StepKeepsInv(d: Driver, step: Step)
    requires Inv(d) && Enabled(d, step) && Careful(d, step)
    ensures Inv(Do(d, step)) && Do(d, step).transferMode == d.transferMode
  {
    hide Inv;
    match step
    case Accept(t) => AcceptKeepsInv(d, t);
    case Size(_) => SetupKeepsInv(d, step);
    case Start(_) => SetupKeepsInv(d, step);
    case Interrupt => InterruptKeepsInv(d);
    case CancelLock => LockKeepsInv(d);
    case CancelClear(remaining) => ClearKeepsInv(d, remaining);
    case CancelRelease => ReleaseKeepsInv(d);
    case Callback(number) => CallbackKeepsInv(d, number);
    case Woken => ReturnKeepsInv(d, step);
    case Drain => ReturnKeepsInv(d, step);
    case _ => TaskKeepsInv(d, step);
  }

  // ---------- Whole runs ----------

  ghost predicate Reaches(d: Driver, run: seq<Step>, e: Driver)
    decreases |run|
  {
    if run == [] then e == d else Enabled(d, run[0]) && Reaches(Do(d, run[0]), run[1..], e)
  }

  /** No cancel of the run comes while its transaction is still being set up. */
  ghost predicate CarefulRun(d: Driver, run: seq<Step>)
    decreases |run|
  {
    run != [] && Enabled(d, run[0]) ==> Careful(d, run[0]) && CarefulRun(Do(d, run[0]), run[1..])
  }

  /** In blocking mode no cancel can come so early. */
  lemma BlockingIsCareful(d: Driver, step: Step)
    requires Inv(d) && d.transferMode == SPI_MODE_BLOCKING && Enabled(d, step)
    ensures Careful(d, step)
  {
    hide History, Returns;
  }

  lemma {:induction false} RunKeepsInv(d: Driver, run: seq<Step>, e: Driver)
    requires Inv(d) && Reaches(d, run, e) && (d.transferMode == SPI_MODE_BLOCKING || CarefulRun(d, run))
    ensures Inv(e) && e.transferMode == d.transferMode
    decreases |run|
  {
    hide Inv, Careful, Do, Enabled;
    if run != [] {
      if d.transferMode == SPI_MODE_BLOCKING { BlockingIsCareful(d, run[0]); }
      StepKeepsInv(d, run[0]);
      RunKeepsInv(Do(d, run[0]), run[1..], e);
    }
  }

  /** Over every interleaving, with no cancel in callback mode while its transaction is being set up:
      each accepted DMA transaction gets exactly one callback, unless it is in flight or a cancel is
      about to give it to the callback; it then has its whole count if completed, and fewer elements if
      cancelled or timed out. No NULL transaction is used in callback mode. In blocking mode no post is
      left over for the next call, and a call returns true exactly if its own transaction was given back
      while it was waiting. */
  lemma OneCallbackEach(mode: Mode, minDmaTransferSize: nat, run: seq<Step>, d: Driver)
    requires Reaches(Opened(mode, minDmaTransferSize), run, d)
    requires mode == SPI_MODE_BLOCKING || CarefulRun(Opened(mode, minDmaTransferSize), run)
    ensures |d.answers| == |d.accepted|
    ensures forall n :: 0 <= n < |d.accepted| ==> |d.answers[n]| + Kept(d, n) == 1
    ensures forall n :: 0 <= n < |d.accepted| && d.answers[n] != [] ==> Answers(d.accepted[n], d.answers[n][0].msg)
    ensures mode == SPI_MODE_CALLBACK ==> !d.fault
    ensures mode == SPI_MODE_BLOCKING && d.phase == Idle ==>
      && |d.returned| == |d.accepted| && !d.transferComplete
      && forall n :: 0 <= n < |d.returned| ==> |d.answers[n]| == 1 && Tells(d.returned[n], d.answers[n][0])
  {
    hide Answers, Kept, Service;
    OpenedIsInv(mode, minDmaTransferSize);
    RunKeepsInv(Opened(mode, minDmaTransferSize), run, d);
  }

  /** A call takes its transaction exactly if none is there, it has elements and a buffer, and with elements
      of two bytes both addresses are even, NULL included; anything else leaves the driver as it was. In
      blocking mode one below the threshold is polled; every other goes to the DMA. */
  lemma TakenIff(d: Driver, t: Transfer)
    requires Enabled(d, Accept(t)) && (t.width == 1 || t.width == 2)
    ensures var e, msg := Do(d, Accept(t)), Transaction(|d.accepted|, t, SPI_TRANSFER_STARTED);
      if d.transaction.None? && t.count > 0 && (t.tx != 0 || t.rx != 0)
         && (t.width == 2 ==> t.tx % 2 == 0 && t.rx % 2 == 0) then
        && e.transaction == Some(msg) && e.amtDataXferred == 0 && e.currentXferAmt == 0
        && (if d.transferMode == SPI_MODE_BLOCKING && t.count < d.minDmaTransferSize
            then e.phase == Polling && e.accepted == d.accepted && e.setups == d.setups
            else e.phase != Polling && e.accepted == d.accepted + [msg] && e.setups == d.setups + [Setup(msg, false)])
      else e == d
  {}

  /** A transaction in flight never stands still: some step serves it. */
  lemma NeverStuck(d: Driver)
    requires Inv(d) && InFlight(d)
    ensures Enabled(d, Interrupt) || Enabled(d, Size(0)) || Enabled(d, Start(0)) || Enabled(d, CancelClear(1))
  {
    hide History;
  }

  /** A cancel reports what the earlier chunks moved and what the hardware says is not remaining of the
      current one, and never all of it. */
  lemma CanceledCount(d: Driver, remaining: nat)
    requires Inv(d) && Enabled(d, CancelClear(remaining))
    ensures d.transaction.Some? && DoCancelClear(d, remaining).gone.Some? && !DoCancelClear(d, remaining).fault
    ensures var msg := DoCancelClear(d, remaining).gone.value;
      && d.amtDataXferred <= msg.t.count < d.transaction.value.t.count
      && msg.t.count + remaining == d.amtDataXferred + d.currentXferAmt
      && msg.status == if d.transferMode == SPI_MODE_BLOCKING then SPI_TRANSFER_FAILED else SPI_TRANSFER_CANCELED
  {
    hide History, Returns;
  }
}
