/**
Runs of the whole controller: which handle an interrupt belongs to, what every event keeps, and exactly
which interrupts go wrong because a closed handle has left a message object as it was.
 */
module CanRuns {
  import opened Options
  import opened BitMask
  import opened CanPort
  import opened CanDriver
  import opened CanSystem

  // ---------- The interrupt handler ----------

  /** The search of the bound list, from its tail, for the handle whose mask has bit `i`. */
  function FindOwner(c: Can, i: nat, receive: bool, to: nat): (r: Option<Handle>)
    requires i < 32 && to <= |c.list| && forall h :: h in c.list ==> h in c.objects
    ensures r.Some? ==> r.value in c.list && Has(MaskOf(c.objects[r.value], receive), i)
    ensures r.None? ==> forall k :: 0 <= k < to ==> !Has(MaskOf(c.objects[c.list[k]], receive), i)
  {
    if to == 0 then None
    else if Has(MaskOf(c.objects[c.list[to - 1]], receive), i) then Some(c.list[to - 1])
    else FindOwner(c, i, receive, to - 1)
  }

  function MaskOf(o: Obj, receive: bool): Mask {
    if receive then o.rxInUseMask else o.txInUseMask
  }

  /** An interrupt finds at most one handle, in at most one direction: the one that owns the index. */
  lemma OneOwner(c: Can, i: nat, h: Handle, receive: bool)
    requires Ownership(c) && i < 32 && h in c.list
    ensures FindOwner(c, i, receive, |c.list|) == Some(h) <==> i in Positions(MaskOf(c.objects[h], receive))
    ensures i in Positions(MaskOf(c.objects[h], receive)) ==> FindOwner(c, i, !receive, |c.list|) == None
  {
    hide Has;
    var r, s := FindOwner(c, i, receive, |c.list|), FindOwner(c, i, !receive, |c.list|);
    if i in Positions(MaskOf(c.objects[h], receive)) {
      var k :| 0 <= k < |c.list| && c.list[k] == h;
      assert Has(MaskOf(c.objects[c.list[k]], receive), i);
      SameOwner(c, i, h, r.value);
      if s.Some? { SameOwner(c, i, h, s.value); }
    }
  }

  lemma SameOwner(c: Can, i: nat, h: Handle, g: Handle)
    requires Ownership(c) && h in c.objects && g in c.objects
    requires i in Owned(c.objects[h]) && i in Owned(c.objects[g])
    ensures h == g
  {
    assert i in Shares(c)[h] && i in Shares(c)[g];
  }

  // ---------- The hardware ----------

  /** The frame a message object is sending for the handle that owns it. */
  function MailboxOf(c: Can, i: nat): Mailbox {
    if i in c.messages && c.messages[i].Sending? && i !in c.stale then Some(c.messages[i].frame) else None
  }

  function WithPort(c: Can, h: Handle, p: Port): Can
    requires h in c.objects
  {
    c.(objects := c.objects[h := c.objects[h].(port := p)])
  }

  /** `CANMessageSet` for a sender. */
  function ConfigureSend(c: Can, i: nat, frame: Frame): Can {
    c.(messages := c.messages[i := Sending(frame)], stale := c.stale - {i})
  }

  /** `CANMessageClear`. */
  function ClearObject(c: Can, i: nat): Can {
    c.(messages := c.messages - {i}, stale := c.stale - {i})
  }

  /** `CANIntClear`: a sender is done with its frame, a receiver goes on receiving. */
  function Acknowledge(c: Can, i: nat): Can {
    if i in c.messages && c.messages[i].Sending? then ClearObject(c, i) else c
  }

  function TxIndex(o: Obj): nat {
    LowestBit(o.txInUseMask, 0)
  }

  // ---------- What the code does to handle and hardware ----------

  function Receive(o: Obj, frame: Frame): Obj {
    if |o.rxBuffer| >= o.rxSize then o.(overrunCount := o.overrunCount + 1)
    else o.(rxBuffer := o.rxBuffer + [frame], readSem := o.readSem + 1)
  }

  /** A read call: a wait on the semaphore, and a get from the ring buffer. */
  function TakeOne(o: Obj): Obj
    requires o.readSem > 0
  {
    o.(readSem := o.readSem - 1, rxBuffer := if o.rxBuffer == [] then [] else o.rxBuffer[1..])
  }

  /** The tx-complete branch of the handler. */
  function SendComplete(c: Can, h: Handle, i: nat): Can
    requires h in c.objects
  {
    var (p, m) := DoTxDone(c.objects[h].port);
    var d := Acknowledge(WithPort(c, h, p), i);
    match m
    case Some(frame) => ConfigureSend(d, i, frame)
    case None => d
  }

  /** The interrupt of message object `i`; `frame` is what it has received, if it is a receiver. An
      interrupt of an object that nobody owns is left alone. */
  function ObjectInterrupt(c: Can, i: nat, frame: Frame): Can
    requires i < 32 && forall h :: h in c.list ==> h in c.objects
  {
    match FindOwner(c, i, true, |c.list|)
    case Some(h) => c.(objects := c.objects[h := Receive(c.objects[h], frame)])
    case None =>
      match FindOwner(c, i, false, |c.list|)
      case Some(h) => SendComplete(c, h, i)
      case None => c
  }

  /** `txMsg`: a waiting frame is handed to the hardware, unless one is already there. */
  function Kick(c: Can, h: Handle): Can
    requires h in c.objects && c.objects[h].port.kicks > 0
  {
    var port, i := c.objects[h].port, TxIndex(c.objects[h]);
    var d := WithPort(c, h, DoTxMsg(port, MailboxOf(c, i)).0);
    if !port.txPending && port.ring != [] then ConfigureSend(d, i, port.ring[0]) else d
  }

  /** The flush of one handle: its message object is cleared and its ring drained. */
  function FlushOne(c: Can, h: Handle): (r: Can)
    requires h in c.objects
    ensures r.list == c.list && r.inUseMask == c.inUseMask && r.objects.Keys == c.objects.Keys
  {
    var o := c.objects[h];
    if o.txInUseMask != 0 then ClearObject(WithPort(c, h, DoFlush(o.port).0), TxIndex(o))
    else WithPort(c, h, o.port.(txPending := false))
  }

  function FlushAll(c: Can, count: nat): (r: Can)
    requires count <= |c.list| && forall h :: h in c.list ==> h in c.objects.Keys
    decreases count
  {
    if count == 0 then c
    else
      var d := FlushOne(c, c.list[count - 1]);
      FlushAll(d, count - 1)
  }

  // ---------- The invariant ----------

  /** A handle that can write has one message object and its transmit path runs in it. */
  ghost predicate PortOk(c: Can, h: Handle)
    requires h in c.objects
  {
    var o := c.objects[h];
    if Positions(o.txInUseMask) == {} then Inv(o.port, None)
    else
      && TxIndex(o) < 32 && Positions(o.txInUseMask) == {TxIndex(o)}
      && Inv(o.port, MailboxOf(c, TxIndex(o)))
  }

  /** A handle that can read has its message object receiving. */
  ghost predicate ReaderOk(c: Can, h: Handle)
    requires h in c.objects
  {
    forall i :: i in Positions(c.objects[h].rxInUseMask) ==>
      i in c.messages && c.messages[i] == Receiving && i !in c.stale
  }

  /** A bound handle owns the message object in the direction it has been told. */
  ghost predicate Backs(c: Can, h: Handle, i: nat)
    requires i in c.messages
  {
    && h in c.list && h in c.objects
    && i in Positions(if c.messages[i].Sending? then c.objects[h].txInUseMask else c.objects[h].rxInUseMask)
  }

  /** Every message object that can interrupt is told so by the handle that owns it, or is stale. */
  ghost predicate Accounted(c: Can) {
    && c.stale <= c.messages.Keys
    && forall i :: i in c.messages && i !in c.stale ==> exists h :: Backs(c, h, i)
  }

  ghost predicate SystemInv(c: Can) {
    && Ownership(c) && Accounted(c)
    && forall h :: h in c.list ==> h in c.objects && PortOk(c, h) && ReaderOk(c, h)
  }

  /** A change that touches no mask keeps ownership. */
  lemma SameMasks(c: Can, d: Can)
    requires Ownership(c) && d.list == c.list && d.inUseMask == c.inUseMask && d.objects.Keys == c.objects.Keys
    requires forall h :: h in c.objects ==>
      d.objects[h].rxInUseMask == c.objects[h].rxInUseMask && d.objects[h].txInUseMask == c.objects[h].txInUseMask
      && d.objects[h].isOpen == c.objects[h].isOpen
    ensures Ownership(d)
  {
    hide Positions, Partition;
    assert Shares(d) == Shares(c);
  }

  lemma TxIndexOf(o: Obj)
    requires exists i: nat :: i < 32 && Positions(o.txInUseMask) == {i}
    ensures TxIndex(o) < 32 && Positions(o.txInUseMask) == {TxIndex(o)}
  {
    var i: nat :| i < 32 && Positions(o.txInUseMask) == {i};
    assert Has(o.txInUseMask, i) by { assert i in Positions(o.txInUseMask); }
    var j := TxIndex(o);
    assert j < 32;
    assert j in Positions(o.txInUseMask);
  }

  lemma BoundInObjects(c: Can, h: Handle)
    requires Ownership(c) && h in c.list
    ensures h in c.objects && c.objects[h].isOpen
  {}

  // ---------- Steps in a handle's own message object ----------

  /** The rest of the hardware is the same. */
  ghost predicate SameBut(c: Can, d: Can, i: nat) {
    forall j :: j != i ==>
      && (j in d.messages <==> j in c.messages) && (j in c.messages ==> d.messages[j] == c.messages[j])
      && (j in d.stale <==> j in c.stale)
  }

  /** A handle's port is now `p`, its message object has `m` for it, and nothing else has changed. */
  ghost predicate InPlace(c: Can, d: Can, h: Handle, p: Port, m: Mailbox)
    requires h in c.objects
  {
    var i := TxIndex(c.objects[h]);
    && d.list == c.list && d.inUseMask == c.inUseMask
    && d.objects == c.objects[h := c.objects[h].(port := p)]
    && SameBut(c, d, i) && MailboxOf(d, i) == m && d.stale <= d.messages.Keys
    && (i in d.messages && i !in d.stale ==> d.messages[i].Sending?)
  }

  lemma InPlaceKeepsPorts(c: Can, d: Can, h: Handle, p: Port, m: Mailbox, g: Handle)
    requires SystemInv(c) && h in c.list && h in c.objects && Positions(c.objects[h].txInUseMask) != {}
    requires InPlace(c, d, h, p, m) && Inv(p, m) && g in c.list
    ensures g in d.objects && PortOk(d, g) && ReaderOk(d, g)
  {
    hide Inv, Positions, Partition, LowestBit;
    var i := TxIndex(c.objects[h]);
    BoundInObjects(c, g);
    assert PortOk(c, h) && PortOk(c, g) && ReaderOk(c, g);
    assert i in Owned(c.objects[h]);
    if g != h && i in Owned(c.objects[g]) { SameOwner(c, i, g, h); }
    assert DirectionsDisjoint(c.objects[h]);
  }

  lemma InPlaceKeepsAccount(c: Can, d: Can, h: Handle, p: Port, m: Mailbox)
    requires SystemInv(c) && h in c.list && h in c.objects && Positions(c.objects[h].txInUseMask) != {}
    requires InPlace(c, d, h, p, m)
    ensures Accounted(d)
  {
    hide Inv, Positions, Partition, LowestBit, Ownership, MailboxOf;
    var i := TxIndex(c.objects[h]);
    assert PortOk(c, h);
    forall j | j in d.messages && j !in d.stale ensures exists g :: Backs(d, g, j) {
      if j == i {
        assert Backs(d, h, j);
      } else {
        var g :| Backs(c, g, j);
        assert Backs(d, g, j);
      }
    }
  }

  /** A step of one handle's transmit path in its message object keeps the system's invariant. */
  lemma InPlaceKeepsInv(c: Can, d: Can, h: Handle, p: Port, m: Mailbox)
    requires SystemInv(c) && h in c.list && h in c.objects && Positions(c.objects[h].txInUseMask) != {}
    requires InPlace(c, d, h, p, m) && Inv(p, m)
    ensures SystemInv(d)
  {
    hide Inv, Positions, PortOk, ReaderOk, Accounted, LowestBit, SameBut, MailboxOf;
    InPlaceKeepsAccount(c, d, h, p, m);
    forall g | g in d.list ensures g in d.objects && PortOk(d, g) && ReaderOk(d, g) {
      InPlaceKeepsPorts(c, d, h, p, m, g);
    }
    SameMasks(c, d);
  }

  /** The message object a handle sends in is not one that receives for anybody. */
  lemma OwnIsSending(c: Can, h: Handle)
    requires SystemInv(c) && h in c.list && h in c.objects && c.objects[h].txInUseMask != 0
    ensures var i := TxIndex(c.objects[h]);
      && i < 32 && Positions(c.objects[h].txInUseMask) == {i} && Inv(c.objects[h].port, MailboxOf(c, i))
      && (i in c.messages && i !in c.stale ==> c.messages[i].Sending?)
  {
    hide Inv, Positions, Partition, LowestBit;
    ZeroIsEmpty(c.objects[h].txInUseMask);
    assert PortOk(c, h);
    var i := TxIndex(c.objects[h]);
    if i in c.messages && i !in c.stale {
      var g :| Backs(c, g, i);
      assert i in Owned(c.objects[g]) && i in Owned(c.objects[h]);
      SameOwner(c, i, g, h);
      assert DirectionsDisjoint(c.objects[h]);
    }
  }

  // ---------- Events ----------

  datatype Event =
    | OpenHandle(h: Handle, params: Params)
    | CloseHandle(h: Handle)
    | Task(h: Handle, step: Step)
    | Read(h: Handle)
    | Errors(warning: bool, busOff: bool)
    | Object(i: nat, frame: Frame)

  /** When an event can happen. A closed or read-only handle is not written to, so a write call whose
      handle is closed meanwhile goes no further; and any message object can interrupt that has been
      told to send or to receive, whoever owns it now. */
  ghost predicate CanHappen(c: Can, e: Event) {
    match e
    case OpenHandle(h, _) => h in c.objects
    case CloseHandle(h) => h in c.list && h in c.objects
    case Task(h, step) =>
      && h in c.list && h in c.objects && c.objects[h].txInUseMask != 0
      && !step.TxDone? && !step.Flush?
      && Enabled(c.objects[h].port, MailboxOf(c, TxIndex(c.objects[h])), step)
    case Read(h) => h in c.list && h in c.objects && c.objects[h].readSem > 0
    case Errors(_, _) => true
    case Object(i, _) => i < 32 && i in c.messages
  }

  /** A step of a write call. */
  function TaskStep(c: Can, h: Handle, step: Step): Can
    requires h in c.objects && (step.Pend? || step.Put? || step.TxMsg?)
    requires Enabled(c.objects[h].port, MailboxOf(c, TxIndex(c.objects[h])), step)
  {
    match step
    case Pend => WithPort(c, h, DoPend(c.objects[h].port))
    case Put(frame) => WithPort(c, h, DoPut(c.objects[h].port, frame))
    case TxMsg => Kick(c, h)
  }

  ghost function After(c: Can, e: Event): Can
    requires CanHappen(c, e) && forall h :: h in c.list ==> h in c.objects.Keys
  {
    match e
    case OpenHandle(h, params) => Open(c, h, params).0
    case CloseHandle(h) => Close(c, h)
    case Task(h, step) => TaskStep(c, h, step)
    case Read(h) => c.(objects := c.objects[h := TakeOne(c.objects[h])])
    case Errors(warning, busOff) =>
      var d := if warning then FlushAll(c, |c.list|) else c;
      FlushedBinds(c, |c.list|);
      if busOff then FlushAll(d, |d.list|) else d
    case Object(i, frame) => ObjectInterrupt(c, i, frame)
  }

  lemma {:induction false} FlushedBinds(c: Can, count: nat)
    requires count <= |c.list| && forall h :: h in c.list ==> h in c.objects.Keys
    ensures var d := FlushAll(c, count); d.list == c.list && d.objects.Keys == c.objects.Keys
    decreases count
  {
    hide FlushOne;
    if count > 0 {
      FlushedBinds(FlushOne(c, c.list[count - 1]), count - 1);
    }
  }

  lemma StaleIsTold(c: Can)
    requires SystemInv(c)
    ensures c.stale <= c.messages.Keys
  {}

  lemma PortOnlyInPlace(c: Can, h: Handle, p: Port)
    requires SystemInv(c) && h in c.list && h in c.objects && c.objects[h].txInUseMask != 0
    ensures InPlace(c, WithPort(c, h, p), h, p, MailboxOf(c, TxIndex(c.objects[h])))
  {
    hide SystemInv, LowestBit, Inv, TxIndex;
    OwnIsSending(c, h);
    StaleIsTold(c);
  }

  lemma ConfigureInPlace(c: Can, d: Can, h: Handle, p: Port, m: Mailbox, frame: Frame)
    requires h in c.objects && InPlace(c, d, h, p, m)
    ensures InPlace(c, ConfigureSend(d, TxIndex(c.objects[h]), frame), h, p, Some(frame))
  {
    hide TxIndex;
  }

  lemma KickInPlace(c: Can, h: Handle)
    requires SystemInv(c) && h in c.list && h in c.objects && c.objects[h].txInUseMask != 0
    requires c.objects[h].port.kicks > 0
    ensures var (p, m) := DoTxMsg(c.objects[h].port, MailboxOf(c, TxIndex(c.objects[h])));
      InPlace(c, Kick(c, h), h, p, m)
  {
    hide SystemInv, InPlace, TxIndex, MailboxOf, WithPort, ConfigureSend;
    var port, m := c.objects[h].port, MailboxOf(c, TxIndex(c.objects[h]));
    var p := DoTxMsg(port, m).0;
    PortOnlyInPlace(c, h, p);
    if port.ring != [] { ConfigureInPlace(c, WithPort(c, h, p), h, p, m, port.ring[0]); }
  }

  /** A step of a write call is one of the port in its message object. */
  lemma TaskInPlace(c: Can, h: Handle, step: Step)
    requires SystemInv(c) && h in c.list && h in c.objects && c.objects[h].txInUseMask != 0
    requires step.Pend? || step.Put? || step.TxMsg?
    requires Enabled(c.objects[h].port, MailboxOf(c, TxIndex(c.objects[h])), step)
    ensures var (p, m) := Do(c.objects[h].port, MailboxOf(c, TxIndex(c.objects[h])), step);
      InPlace(c, TaskStep(c, h, step), h, p, m)
  {
    hide SystemInv, InPlace, LowestBit, DoPend, DoPut, DoTxMsg, Kick, WithPort;
    match step
    case Pend => PortOnlyInPlace(c, h, DoPend(c.objects[h].port));
    case Put(frame) => PortOnlyInPlace(c, h, DoPut(c.objects[h].port, frame));
    case TxMsg => KickInPlace(c, h);
  }

  lemma FlushInPlace(c: Can, h: Handle)
    requires SystemInv(c) && h in c.list && h in c.objects && c.objects[h].txInUseMask != 0
    ensures var (p, m) := DoFlush(c.objects[h].port); InPlace(c, FlushOne(c, h), h, p, m)
  {
    hide Inv, Positions, LowestBit, Ownership, PortOk, ReaderOk, Drops;
  }

  lemma CompleteInPlace(c: Can, h: Handle)
    requires SystemInv(c) && h in c.list && h in c.objects && c.objects[h].txInUseMask != 0
    requires MailboxOf(c, TxIndex(c.objects[h])).Some?
    ensures var (p, m) := DoTxDone(c.objects[h].port); InPlace(c, SendComplete(c, h, TxIndex(c.objects[h])), h, p, m)
  {
    hide Inv, Positions, LowestBit, Ownership, PortOk, ReaderOk;
  }

  lemma TaskKeepsInv(c: Can, h: Handle, step: Step)
    requires SystemInv(c) && h in c.list && h in c.objects && c.objects[h].txInUseMask != 0
    requires step.Pend? || step.Put? || step.TxMsg?
    requires Enabled(c.objects[h].port, MailboxOf(c, TxIndex(c.objects[h])), step)
    ensures SystemInv(TaskStep(c, h, step))
  {
    hide Inv, SystemInv, InPlace, TaskStep, LowestBit, Do, Enabled, Positions;
    TaskInPlace(c, h, step);
    OwnIsSending(c, h);
    var m := MailboxOf(c, TxIndex(c.objects[h]));
    StepKeepsInv(c.objects[h].port, m, step);
    InPlaceKeepsInv(c, TaskStep(c, h, step), h, Do(c.objects[h].port, m, step).0, Do(c.objects[h].port, m, step).1);
  }

  lemma FlushWriterKeepsInv(c: Can, h: Handle)
    requires SystemInv(c) && h in c.list && h in c.objects && c.objects[h].txInUseMask != 0
    ensures SystemInv(FlushOne(c, h))
  {
    hide Inv, SystemInv, InPlace, FlushOne, LowestBit, Positions, DoFlush;
    var o := c.objects[h];
    FlushInPlace(c, h);
    OwnIsSending(c, h);
    StepKeepsInv(o.port, MailboxOf(c, TxIndex(o)), Flush);
    InPlaceKeepsInv(c, FlushOne(c, h), h, DoFlush(o.port).0, DoFlush(o.port).1);
  }

  /** A handle that cannot write has nothing to flush. */
  lemma FlushReaderIsIdle(c: Can, h: Handle)
    requires SystemInv(c) && h in c.list && h in c.objects && c.objects[h].txInUseMask == 0
    ensures FlushOne(c, h) == c
  {
    hide LowestBit, Ownership, Accounted, ReaderOk, FramesOf, HandedOf, Positions;
    var o := c.objects[h];
    ZeroIsEmpty(o.txInUseMask);
    assert PortOk(c, h);
    assert o.(port := o.port.(txPending := false)) == o;
    assert c.objects[h := o] == c.objects;
  }

  lemma FlushOneKeepsInv(c: Can, h: Handle)
    requires SystemInv(c) && h in c.list && h in c.objects
    ensures SystemInv(FlushOne(c, h))
  {
    hide SystemInv, FlushOne;
    if c.objects[h].txInUseMask != 0 { FlushWriterKeepsInv(c, h); } else { FlushReaderIsIdle(c, h); }
  }

  lemma {:induction false} FlushKeepsInv(c: Can, count: nat)
    requires SystemInv(c) && count <= |c.list|
    ensures SystemInv(FlushAll(c, count))
    decreases count
  {
    hide FlushOne, Ownership, Accounted, PortOk, ReaderOk;
    if count > 0 {
      var h := c.list[count - 1];
      FlushOneKeepsInv(c, h);
      FlushKeepsInv(FlushOne(c, h), count - 1);
    }
  }

  // ---------- Interrupts ----------

  predicate SameButRx(o: Obj, p: Obj) {
    p == o.(rxBuffer := p.rxBuffer, readSem := p.readSem, overrunCount := p.overrunCount)
  }

  /** A change of a handle's receive side keeps the invariant. */
  lemma ReceiveKeepsInv(c: Can, h: Handle, o: Obj)
    requires SystemInv(c) && h in c.list && h in c.objects && SameButRx(c.objects[h], o)
    ensures SystemInv(c.(objects := c.objects[h := o]))
  {
    hide Inv, Positions, Ownership, LowestBit;
    var d := c.(objects := c.objects[h := o]);
    SameMasks(c, d);
    forall g | g in d.list ensures g in d.objects && PortOk(d, g) && ReaderOk(d, g) {
      assert g in c.objects && PortOk(c, g) && ReaderOk(c, g);
      assert MailboxOf(d, TxIndex(c.objects[g])) == MailboxOf(c, TxIndex(c.objects[g]));
    }
    forall i | i in d.messages && i !in d.stale ensures exists g :: Backs(d, g, i) {
      var g :| Backs(c, g, i);
      assert Backs(d, g, i);
    }
  }

  lemma SentBy(c: Can, i: nat, h: Handle)
    requires SystemInv(c) && h in c.list && h in c.objects && i < 32 && Has(c.objects[h].txInUseMask, i)
    ensures TxIndex(c.objects[h]) == i && c.objects[h].txInUseMask != 0
  {
    hide Inv, Ownership, Accounted, ReaderOk;
    assert PortOk(c, h);
    assert i in Positions(c.objects[h].txInUseMask);
    ZeroIsEmpty(c.objects[h].txInUseMask);
  }

  /** The interrupt is one that a closed handle has left behind, and a writing handle takes it for its
      own. */
  predicate Strays(c: Can, i: nat)
    requires i < 32 && forall h :: h in c.list ==> h in c.objects
  {
    i in c.stale && FindOwner(c, i, true, |c.list|).None? && FindOwner(c, i, false, |c.list|).Some?
  }

  /** A tx-complete that no frame was sent for is never in order: with an empty ring a slot too many is
      counted, otherwise the ring's head is taken for sent. */
  lemma UnaskedBreaks(p: Port)
    requires Inv(p, None)
    ensures var (q, m) := DoTxDone(p);
      && !Inv(q, m)
      && (p.ring == [] ==> q.freeSlots + |q.ring| + q.writers == p.capacity + 1)
      && (p.ring != [] ==> q.ring == p.ring[1..] && q.fates == p.fates + [Sent(p.ring[0])])
      && (|p.ring| <= 1 ==> q.handed == p.handed)
  {
    if p.ring != [] { FatesAppend(p.fates, Sent(p.ring[0])); }
    hide FramesOf, HandedOf;
  }

  lemma CompletePort(c: Can, h: Handle, i: nat)
    requires h in c.objects
    ensures var d := SendComplete(c, h, i);
      && d.list == c.list && d.objects == c.objects[h := c.objects[h].(port := DoTxDone(c.objects[h].port).0)]
      && (i in c.stale || i !in c.messages || c.messages[i].Sending? ==>
           MailboxOf(d, i) == DoTxDone(c.objects[h].port).1)
  {
    hide DoTxDone;
  }

  lemma StrayBreaksInv(c: Can, h: Handle)
    requires SystemInv(c) && h in c.list && h in c.objects && c.objects[h].txInUseMask != 0
    requires TxIndex(c.objects[h]) in c.stale
    ensures !SystemInv(SendComplete(c, h, TxIndex(c.objects[h])))
  {
    var o, i := c.objects[h], TxIndex(c.objects[h]);
    OwnIsSending(c, h);
    assert MailboxOf(c, i) == None;
    CompletePort(c, h, i);
    var d := SendComplete(c, h, i);
    UnaskedBreaks(o.port);
    hide Inv, SendComplete, LowestBit, Positions, Ownership, Accounted, ReaderOk, DoTxDone, MailboxOf;
    if SystemInv(d) {
      PortInOrder(d, h, i);
      assert false;
    }
  }

  lemma PortInOrder(c: Can, h: Handle, i: nat)
    requires SystemInv(c) && h in c.list && h in c.objects && c.objects[h].txInUseMask != 0
    requires TxIndex(c.objects[h]) == i
    ensures Inv(c.objects[h].port, MailboxOf(c, i))
  {
    hide Inv, LowestBit;
    OwnIsSending(c, h);
  }

  lemma OwnCompleteKeepsInv(c: Can, h: Handle)
    requires SystemInv(c) && h in c.list && h in c.objects && c.objects[h].txInUseMask != 0
    requires TxIndex(c.objects[h]) in c.messages && TxIndex(c.objects[h]) !in c.stale
    ensures SystemInv(SendComplete(c, h, TxIndex(c.objects[h])))
  {
    hide Inv, SystemInv, InPlace, SendComplete, LowestBit, Positions, DoTxDone;
    var o, i := c.objects[h], TxIndex(c.objects[h]);
    OwnIsSending(c, h);
    CompleteInPlace(c, h);
    StepKeepsInv(o.port, MailboxOf(c, i), TxDone);
    InPlaceKeepsInv(c, SendComplete(c, h, i), h, DoTxDone(o.port).0, DoTxDone(o.port).1);
  }

  /** The interrupt of an object that a writer owns keeps the invariant exactly if it is the writer's. */
  lemma CompleteKeepsInvIff(c: Can, h: Handle)
    requires SystemInv(c) && h in c.list && h in c.objects && c.objects[h].txInUseMask != 0
    requires TxIndex(c.objects[h]) in c.messages
    ensures SystemInv(SendComplete(c, h, TxIndex(c.objects[h]))) <==> TxIndex(c.objects[h]) !in c.stale
  {
    hide SystemInv, SendComplete, LowestBit;
    if TxIndex(c.objects[h]) in c.stale { StrayBreaksInv(c, h); } else { OwnCompleteKeepsInv(c, h); }
  }

  lemma ObjectKeepsInvIff(c: Can, i: nat, frame: Frame)
    requires SystemInv(c) && i < 32 && i in c.messages && forall h :: h in c.list ==> h in c.objects
    ensures SystemInv(ObjectInterrupt(c, i, frame)) <==> !Strays(c, i)
  {
    hide SystemInv, SendComplete, LowestBit;
    match FindOwner(c, i, true, |c.list|)
    case Some(h) => ReceiveKeepsInv(c, h, Receive(c.objects[h], frame));
    case None =>
      match FindOwner(c, i, false, |c.list|)
      case Some(h) =>
        SentBy(c, i, h);
        CompleteKeepsInvIff(c, h);
      case None =>
  }

  /** What such an interrupt does to the writing handle: with an empty ring it counts a free slot too many;
      otherwise the frame at the ring's head is gone, and if no other waits none has been handed over. */
  lemma StaleInterruptLeaksSlot(c: Can, g: Handle, i: nat, frame: Frame)
    requires SystemInv(c) && g in c.list && g in c.objects && i in c.stale && i < 32
    requires i in Positions(c.objects[g].txInUseMask)
    ensures forall h :: h in c.list ==> h in c.objects
    ensures Strays(c, i) && g in ObjectInterrupt(c, i, frame).objects
    ensures var p, q := c.objects[g].port, ObjectInterrupt(c, i, frame).objects[g].port;
      && (p.ring == [] ==> q.freeSlots + |q.ring| + q.writers == p.capacity + 1)
      && (p.ring != [] ==> q.ring == p.ring[1..] && q.fates == p.fates + [Sent(p.ring[0])])
      && (|p.ring| <= 1 ==> q.handed == p.handed)
  {
    Bound(c);
    OneOwner(c, i, g, false);
    hide LowestBit, Inv, Has;
    assert Has(c.objects[g].txInUseMask, i);
    SentBy(c, i, g);
    OwnIsSending(c, g);
    UnaskedBreaks(c.objects[g].port);
    CompletePort(c, g, i);
    hide SystemInv, SendComplete, DoTxDone, Positions, FindOwner;
  }

  /** The interrupt of an object that no handle owns changes nothing, so the handler does not acknowledge
      it. */
  lemma UnownedIsIgnored(c: Can, i: nat, frame: Frame)
    requires Ownership(c) && i < 32 && i !in Positions(c.inUseMask)
    ensures forall h :: h in c.list ==> h in c.objects
    ensures ObjectInterrupt(c, i, frame) == c
  {
    hide Has, Partition;
    forall h, receive: bool | h in c.list ensures FindOwner(c, i, receive, |c.list|) != Some(h) {
      OwnsWithin(c, h);
      OneOwner(c, i, h, receive);
    }
  }

  // ---------- Opens ----------

  lemma OpenKeepsInv(c: Can, h: Handle, params: Params)
    requires SystemInv(c) && h in c.objects
    ensures SystemInv(Open(c, h, params).0) && Open(c, h, params).0.stale <= c.stale
  {
    hide Open, Ownership, Opened, NotOpened, PortOk, ReaderOk, Accounted;
    var (d, ok) := Open(c, h, params);
    OpenKeepsOwnership(c, h, params);
    if ok {
      OpenedKeepsInv(c, d, h, params);
    } else {
      NotOpenedKeepsInv(c, d, h);
    }
  }

  /** A message object that can interrupt and is free is stale. */
  lemma FreeIsStale(c: Can, i: nat)
    requires SystemInv(c) && i in c.messages && i !in Positions(c.inUseMask)
    ensures i in c.stale
  {
    hide Positions, Partition, LowestBit, Inv;
    if i !in c.stale {
      var g :| Backs(c, g, i);
      OwnsWithin(c, g);
    }
  }

  lemma NotOpenedKeepsInv(c: Can, d: Can, h: Handle)
    requires SystemInv(c) && Ownership(d) && h in c.objects && NotOpened(c, d, h)
    ensures SystemInv(d) && d.stale <= c.stale
  {
    hide Inv, Positions, LowestBit, Partition;
    forall i | i in d.stale ensures i in c.stale {
      if i !in c.stale { FreeIsStale(c, i); }
    }
    forall g | g in d.list ensures g in d.objects && PortOk(d, g) && ReaderOk(d, g) {
      assert g in c.objects && PortOk(c, g) && ReaderOk(c, g);
      assert d.objects[g].isOpen;
      assert g != h || d.objects[h] == c.objects[h];
      assert MailboxOf(d, TxIndex(c.objects[g])) == MailboxOf(c, TxIndex(c.objects[g]));
    }
    forall i | i in d.messages && i !in d.stale ensures exists g :: Backs(d, g, i) {
      var g :| Backs(c, g, i);
      assert d.objects[g].isOpen;
      assert Backs(d, g, i);
    }
  }

  lemma NewHandle(c: Can, d: Can, h: Handle, g: Handle)
    requires Ownership(c) && Ownership(d) && g in c.list && d.list == c.list + [h]
    ensures g != h && g in d.list
  {
    var k :| 0 <= k < |c.list| && c.list[k] == g;
    assert d.list[k] == g && d.list[|c.list|] == h;
  }

  lemma FreshIsInv(capacity: nat)
    ensures Inv(Fresh(capacity), None)
  {}

  /** A freshly opened writer starts with no frame of its own, whatever was left in its object. */
  lemma OpenedPort(c: Can, d: Can, h: Handle, params: Params)
    requires SystemInv(c) && Ownership(d) && Opened(c, d, h, params)
    ensures PortOk(d, h) && ReaderOk(d, h)
  {
    hide Inv, Positions, LowestBit, Partition;
    FreshIsInv(params.txSize);
    if params.write {
      TxIndexOf(d.objects[h]);
      var i := TxIndex(d.objects[h]);
      assert DirectionsDisjoint(d.objects[h]);
      if i in d.messages { FreeIsStale(c, i); }
    }
  }

  /** The other handles are as they were. */
  lemma OthersStay(c: Can, d: Can, h: Handle, params: Params, g: Handle)
    requires SystemInv(c) && Ownership(d) && h in c.objects && Opened(c, d, h, params) && g in c.list
    ensures g != h && g in d.objects && PortOk(d, g) && ReaderOk(d, g)
  {
    hide Inv, LowestBit, Partition, Positions;
    NewHandle(c, d, h, g);
    OwnsWithin(c, g);
    assert PortOk(c, g) && ReaderOk(c, g);
    var i := TxIndex(c.objects[g]);
    if Positions(c.objects[g].txInUseMask) != {} {
      assert i in Owned(c.objects[g]);
      assert MailboxOf(d, i) == MailboxOf(c, i);
    }
    forall j | j in Positions(c.objects[g].rxInUseMask) ensures j !in Positions(d.objects[h].rxInUseMask) {
      assert j in Owned(c.objects[g]);
    }
  }

  lemma OpenedIsAccounted(c: Can, d: Can, h: Handle, params: Params)
    requires SystemInv(c) && Ownership(d) && h in c.objects && Opened(c, d, h, params)
    ensures Accounted(d) && d.stale <= c.stale
  {
    hide Inv, Positions, LowestBit, Partition, PortOk, ReaderOk;
    forall i | i in d.messages && i !in d.stale ensures exists g :: Backs(d, g, i) {
      if i in Positions(d.objects[h].rxInUseMask) {
        assert Backs(d, h, i);
      } else {
        var g :| Backs(c, g, i);
        NewHandle(c, d, h, g);
        assert Backs(d, g, i);
      }
    }
  }

  lemma OpenedKeepsInv(c: Can, d: Can, h: Handle, params: Params)
    requires SystemInv(c) && Ownership(d) && h in c.objects && Opened(c, d, h, params)
    ensures SystemInv(d) && d.stale <= c.stale
  {
    OpenedIsAccounted(c, d, h, params);
    OpenedPort(c, d, h, params);
    forall g | g in d.list ensures g in d.objects && PortOk(d, g) && ReaderOk(d, g) {
      if g in c.list { OthersStay(c, d, h, params, g); } else { LastIsNew(c, d, h, g); }
    }
    hide PortOk, ReaderOk, Ownership, Accounted, Opened;
  }

  lemma LastIsNew(c: Can, d: Can, h: Handle, g: Handle)
    requires d.list == c.list + [h] && g in d.list && g !in c.list
    ensures g == h
  {}

  // ---------- Closes ----------

  /** A close keeps the invariant, and leaves stale what the handle had told the hardware. */
  lemma CloseKeepsInv(c: Can, h: Handle)
    requires SystemInv(c) && h in c.list && h in c.objects
    ensures SystemInv(Close(c, h))
    ensures Close(c, h).stale == c.stale + c.messages.Keys * Owned(c.objects[h])
  {
    hide Inv, Close, Partition, Positions, LowestBit, Owned;
    var d := Close(c, h);
    CloseKeepsOwnership(c, h);
    CloseClears(c, h);
    forall g | g in d.list ensures g in d.objects && PortOk(d, g) && ReaderOk(d, g) {
      OthersKept(c, d, h, g);
    }
    forall i | i in d.messages && i !in d.stale ensures exists g :: Backs(d, g, i) {
      var g :| Backs(c, g, i);
      BacksOwns(c, g, i);
      assert g != h;
      assert Backs(d, g, i);
    }
  }

  lemma BacksOwns(c: Can, g: Handle, i: nat)
    requires i in c.messages && Backs(c, g, i)
    ensures i in Owned(c.objects[g])
  {}

  lemma OthersKept(c: Can, d: Can, h: Handle, g: Handle)
    requires SystemInv(c) && h in c.list && h in c.objects && g in d.list
    requires d.list == Without(c.list, h) && d.messages == c.messages
    requires d.stale == c.stale + c.messages.Keys * Owned(c.objects[h])
    requires d.objects == c.objects[h := Closed(c.objects[h])]
    ensures g in d.objects && PortOk(d, g) && ReaderOk(d, g)
  {
    hide Inv, Positions, LowestBit, Partition;
    assert g != h && g in c.objects && PortOk(c, g) && ReaderOk(c, g);
    forall i | i in Owned(c.objects[g]) ensures i !in Owned(c.objects[h]) {
      if i in Owned(c.objects[h]) { SameOwner(c, i, g, h); }
    }
    var i := TxIndex(c.objects[g]);
    if Positions(c.objects[g].txInUseMask) != {} {
      assert i in Owned(c.objects[g]);
      assert MailboxOf(d, i) == MailboxOf(c, i);
    }
    forall j | j in Positions(c.objects[g].rxInUseMask) ensures j !in d.stale {
      assert j in Owned(c.objects[g]);
    }
  }

  /** What a handle has told the hardware: to send its pending frame, and to receive. */
  lemma ToldByHandle(c: Can, h: Handle)
    requires SystemInv(c) && h in c.list && h in c.objects
    ensures (c.messages.Keys * Owned(c.objects[h])) - c.stale
      == (if c.objects[h].port.txPending then Positions(c.objects[h].txInUseMask) else {})
         + Positions(c.objects[h].rxInUseMask)
  {
    hide Positions, LowestBit, Partition;
    var o := c.objects[h];
    assert PortOk(c, h) && ReaderOk(c, h);
    hide FramesOf, HandedOf;
    if o.txInUseMask != 0 { OwnIsSending(c, h); } else { ZeroIsEmpty(0); }
  }

  /** A close leaves no message object behind that can interrupt exactly if the handle has no frame with
      the hardware and does not receive. */
  lemma CloseIsCleanIff(c: Can, h: Handle)
    requires SystemInv(c) && h in c.list && h in c.objects
    ensures Close(c, h).stale == c.stale <==>
      !c.objects[h].port.txPending && c.objects[h].rxInUseMask == 0
  {
    hide Positions, LowestBit, SystemInv, Close, Owned;
    var o := c.objects[h];
    CloseKeepsInv(c, h);
    ToldByHandle(c, h);
    ZeroIsEmpty(o.rxInUseMask);
    if o.port.txPending { PendingHasObject(c, h); }
    AddsNothingIff(c.stale, c.messages.Keys * Owned(o));
    EmptyIff(if o.port.txPending then Positions(o.txInUseMask) else {}, Positions(o.rxInUseMask));
  }

  lemma EmptyIff(a: set<nat>, b: set<nat>)
    ensures a + b == {} <==> a == {} && b == {}
  {
    assert forall i :: i in a || i in b ==> i in a + b;
  }

  lemma AddsNothingIff(a: set<nat>, b: set<nat>)
    ensures a + b == a <==> b - a == {}
  {
    assert forall i :: i in b - a <==> i in b && i !in a;
    if a + b == a {
      assert forall i :: i in b ==> i in a + b;
    }
  }

  lemma PendingHasObject(c: Can, h: Handle)
    requires SystemInv(c) && h in c.list && h in c.objects && c.objects[h].port.txPending
    ensures Positions(c.objects[h].txInUseMask) != {}
  {
    hide LowestBit, Ownership, Accounted, ReaderOk;
    assert PortOk(c, h);
  }

  // ---------- Every event ----------

  /** The event is not an interrupt that strays to a writing handle. */
  predicate Careful(c: Can, e: Event)
    requires forall h :: h in c.list ==> h in c.objects
  {
    e.Object? && e.i < 32 ==> !Strays(c, e.i)
  }

  lemma Bound(c: Can)
    requires SystemInv(c)
    ensures forall h :: h in c.list ==> h in c.objects
    ensures forall h :: h in c.list ==> h in c.objects.Keys
  {}

  /** Every event, closes included, keeps the invariant if and only if it is not such an interrupt. */
  lemma EventKeepsInvIff(c: Can, e: Event)
    requires SystemInv(c) && CanHappen(c, e) && forall h :: h in c.list ==> h in c.objects.Keys
    ensures SystemInv(After(c, e)) <==> Careful(c, e)
  {
    hide SystemInv, Open, Close, FlushAll, ObjectInterrupt, TaskStep, Enabled, Strays, LowestBit;
    Bound(c);
    match e
    case OpenHandle(h, params) => OpenKeepsInv(c, h, params);
    case CloseHandle(h) => CloseKeepsInv(c, h);
    case Task(h, step) => TaskKeepsInv(c, h, step);
    case Read(h) => ReceiveKeepsInv(c, h, TakeOne(c.objects[h]));
    case Errors(warning, busOff) =>
      FlushKeepsInv(c, |c.list|);
      var d := if warning then FlushAll(c, |c.list|) else c;
      FlushKeepsInv(d, |d.list|);
    case Object(i, frame) => ObjectKeepsInvIff(c, i, frame);
  }

  // ---------- Whole runs ----------

  /** The events of a run can happen one after the other, and no interrupt strays. */
  ghost predicate Run(c: Can, events: seq<Event>, d: Can)
    decreases |events|
  {
    if events == [] then d == c
    else
      && CanHappen(c, events[0]) && (forall h :: h in c.list ==> h in c.objects.Keys)
      && Careful(c, events[0]) && Run(After(c, events[0]), events[1..], d)
  }

  /** The controller before anything is opened. */
  predicate Initial(c: Can) {
    c.list == [] && c.inUseMask == 0 && c.messages == map[] && c.stale == {}
    && forall h :: h in c.objects ==>
      !c.objects[h].isOpen && c.objects[h].rxInUseMask == 0 && c.objects[h].txInUseMask == 0
  }

  lemma InitialIsInv(c: Can)
    requires Initial(c)
    ensures SystemInv(c)
  {
    hide Positions;
    ZeroIsEmpty(0);
  }

  lemma {:induction false} RunKeepsInvFrom(c: Can, events: seq<Event>, d: Can)
    requires SystemInv(c) && Run(c, events, d)
    ensures SystemInv(d)
    decreases |events|
  {
    hide SystemInv, CanHappen, Careful, After;
    if events != [] {
      EventKeepsInvIff(c, events[0]);
      RunKeepsInvFrom(After(c, events[0]), events[1..], d);
    }
  }

  /** In every reachable state, over every interleaving of opens, failed opens, any closes, write steps, reads,
      error flushes and interrupts of which none strays to a writing handle: the mask is the disjoint
      union of what the open handles own, every interrupt index has at most one owner and direction,
      every writing handle's transmit path is in order in its own message object, every reading handle's
      message object receives, and every other object that can interrupt was left by a closed handle. */
  lemma ReachableIsInv(c: Can, events: seq<Event>, d: Can)
    requires Initial(c) && Run(c, events, d)
    ensures Ownership(d) && Accounted(d)
    ensures forall h :: h in d.list ==> h in d.objects && PortOk(d, h) && ReaderOk(d, h)
  {
    InitialIsInv(c);
    RunKeepsInvFrom(c, events, d);
  }

  // ---------- Clean closes ----------

  /** The handle has no frame with the hardware, and does not receive. */
  predicate Clean(c: Can, e: Event) {
    e.CloseHandle? && e.h in c.objects ==> !c.objects[e.h].port.txPending && c.objects[e.h].rxInUseMask == 0
  }

  lemma TaskAddsNoStale(c: Can, h: Handle, step: Step)
    requires h in c.objects && (step.Pend? || step.Put? || step.TxMsg?)
    requires Enabled(c.objects[h].port, MailboxOf(c, TxIndex(c.objects[h])), step)
    ensures TaskStep(c, h, step).stale <= c.stale
  {
    hide LowestBit;
  }

  lemma FlushOneAddsNoStale(c: Can, h: Handle)
    requires h in c.objects
    ensures FlushOne(c, h).stale <= c.stale
  {
    hide LowestBit, DoFlush;
  }

  lemma {:induction false} FlushAddsNoStale(c: Can, count: nat)
    requires count <= |c.list| && forall h :: h in c.list ==> h in c.objects.Keys
    ensures FlushAll(c, count).stale <= c.stale
    decreases count
  {
    hide FlushOne;
    if count > 0 {
      FlushOneAddsNoStale(c, c.list[count - 1]);
      FlushAddsNoStale(FlushOne(c, c.list[count - 1]), count - 1);
    }
  }

  lemma InterruptAddsNoStale(c: Can, i: nat, frame: Frame)
    requires i < 32 && forall h :: h in c.list ==> h in c.objects
    ensures ObjectInterrupt(c, i, frame).stale <= c.stale
  {
    hide FindOwner, DoTxDone;
  }

  /** Without anything stale, an event strays nowhere; and it makes something stale exactly if it is a
      close that is not clean. */
  lemma CleanIff(c: Can, e: Event)
    requires SystemInv(c) && c.stale == {} && CanHappen(c, e) && forall h :: h in c.list ==> h in c.objects.Keys
    ensures Careful(c, e)
    ensures After(c, e).stale == {} <==> Clean(c, e)
  {
    hide SystemInv, Open, Close, FlushAll, ObjectInterrupt, TaskStep, Enabled, LowestBit;
    Bound(c);
    match e
    case OpenHandle(h, params) => OpenKeepsInv(c, h, params);
    case CloseHandle(h) => CloseIsCleanIff(c, h);
    case Task(h, step) => TaskAddsNoStale(c, h, step);
    case Read(h) =>
    case Errors(warning, busOff) =>
      FlushAddsNoStale(c, |c.list|);
      FlushedBinds(c, |c.list|);
      var d := if warning then FlushAll(c, |c.list|) else c;
      FlushAddsNoStale(d, |d.list|);
    case Object(i, frame) => InterruptAddsNoStale(c, i, frame);
  }

  /** Any run, with the closes in it clean. */
  ghost predicate CleanRun(c: Can, events: seq<Event>, d: Can)
    decreases |events|
  {
    if events == [] then d == c
    else
      && CanHappen(c, events[0]) && (forall h :: h in c.list ==> h in c.objects.Keys)
      && Clean(c, events[0]) && CleanRun(After(c, events[0]), events[1..], d)
  }

  /** If every close is clean, nothing is ever stale, so no interrupt strays and the invariant holds. */
  lemma {:induction false} CleanRunIsInv(c: Can, events: seq<Event>, d: Can)
    requires SystemInv(c) && c.stale == {} && CleanRun(c, events, d)
    ensures Run(c, events, d) && SystemInv(d) && d.stale == {}
    decreases |events|
  {
    hide SystemInv, CanHappen, Careful, After, Clean;
    if events != [] {
      CleanIff(c, events[0]);
      EventKeepsInvIff(c, events[0]);
      CleanRunIsInv(After(c, events[0]), events[1..], d);
    }
  }
}
