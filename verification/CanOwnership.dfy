/**
Ownership of message objects over runs with any closes, also those of handles that still have a frame
with the hardware.
 */
module CanOwnership {
  import opened Options
  import opened BitMask
  import opened CanPort
  import opened CanDriver
  import opened CanSystem
  import opened CanRuns

  /** Everything that ownership is about is the same. */
  ghost predicate SameShape(c: Can, d: Can) {
    && d.list == c.list && d.inUseMask == c.inUseMask && d.objects.Keys == c.objects.Keys
    && forall h :: h in c.objects ==> SameObject(c.objects[h], d.objects[h])
  }

  predicate SameObject(o: Obj, p: Obj) {
    p.rxInUseMask == o.rxInUseMask && p.txInUseMask == o.txInUseMask && p.isOpen == o.isOpen
  }

  lemma TaskShape(c: Can, h: Handle, step: Step)
    requires h in c.objects && (step.Pend? || step.Put? || step.TxMsg?)
    requires Enabled(c.objects[h].port, MailboxOf(c, TxIndex(c.objects[h])), step)
    ensures SameShape(c, TaskStep(c, h, step))
  {
    hide LowestBit, DoTxMsg, DoPend, DoPut, MailboxOf;
  }

  lemma FlushOneShape(c: Can, h: Handle)
    requires h in c.objects
    ensures SameShape(c, FlushOne(c, h))
  {
    hide DoFlush, LowestBit;
  }

  lemma {:induction false} FlushAllShape(c: Can, count: nat)
    requires count <= |c.list| && forall h :: h in c.list ==> h in c.objects.Keys
    ensures SameShape(c, FlushAll(c, count))
    decreases count
  {
    hide FlushOne;
    if count > 0 {
      FlushOneShape(c, c.list[count - 1]);
      FlushAllShape(FlushOne(c, c.list[count - 1]), count - 1);
    }
  }

  lemma CompleteShape(c: Can, h: Handle, i: nat)
    requires h in c.objects
    ensures SameShape(c, SendComplete(c, h, i))
  {
    hide DoTxDone;
  }

  lemma ReceiveShape(c: Can, h: Handle, frame: Frame)
    requires h in c.objects
    ensures SameShape(c, c.(objects := c.objects[h := Receive(c.objects[h], frame)]))
  {}

  lemma ObjectShape(c: Can, i: nat, frame: Frame)
    requires i < 32 && forall h :: h in c.list ==> h in c.objects
    ensures SameShape(c, ObjectInterrupt(c, i, frame))
  {
    hide SendComplete, Receive, Has, FindOwner;
    match FindOwner(c, i, true, |c.list|)
    case Some(h) => ReceiveShape(c, h, frame);
    case None =>
      match FindOwner(c, i, false, |c.list|)
      case Some(h) => CompleteShape(c, h, i);
      case None =>
  }

  lemma EventKeepsOwnership(c: Can, e: Event)
    requires Ownership(c) && CanHappen(c, e) && forall h :: h in c.list ==> h in c.objects.Keys
    ensures Ownership(After(c, e)) && After(c, e).objects.Keys == c.objects.Keys
  {
    hide Ownership, Open, Close, FlushAll, ObjectInterrupt, TaskStep, Enabled;
    match e
    case OpenHandle(h, params) =>
      OpenKeepsKeys(c, h, params);
    case CloseHandle(h) =>
      CloseKeepsOwnership(c, h);
      CloseKeepsKeys(c, h);
    case Task(h, step) =>
      TaskShape(c, h, step);
      SameMasks(c, After(c, e));
    case Read(h) =>
      SameMasks(c, After(c, e));
    case Errors(warning, busOff) =>
      FlushAllShape(c, |c.list|);
      var d := if warning then FlushAll(c, |c.list|) else c;
      FlushAllShape(d, |d.list|);
      SameMasks(c, After(c, e));
    case Object(i, frame) =>
      ObjectShape(c, i, frame);
      SameMasks(c, After(c, e));
  }

  lemma CloseKeepsKeys(c: Can, h: Handle)
    requires h in c.objects
    ensures Close(c, h).objects.Keys == c.objects.Keys
  {}

  lemma OpenKeepsKeys(c: Can, h: Handle, params: Params)
    requires Ownership(c) && h in c.objects
    ensures Ownership(Open(c, h, params).0) && Open(c, h, params).0.objects.Keys == c.objects.Keys
  {
    hide Open, Ownership;
    OpenKeepsOwnership(c, h, params);
  }

  lemma OwnedBound(c: Can)
    requires Ownership(c)
    ensures forall h :: h in c.list ==> h in c.objects.Keys
  {}

  /** The events of a run can happen one after the other, careful closes or not. */
  ghost predicate AnyRun(c: Can, events: seq<Event>, d: Can)
    decreases |events|
  {
    if events == [] then d == c
    else
      && CanHappen(c, events[0]) && (forall h :: h in c.list ==> h in c.objects.Keys)
      && AnyRun(After(c, events[0]), events[1..], d)
  }

  lemma {:induction false} AnyRunKeepsOwnership(c: Can, events: seq<Event>, d: Can)
    requires Ownership(c) && AnyRun(c, events, d)
    ensures Ownership(d)
    decreases |events|
  {
    hide Ownership, CanHappen, After;
    if events != [] {
      EventKeepsOwnership(c, events[0]);
      AnyRunKeepsOwnership(After(c, events[0]), events[1..], d);
    }
  }

  /** In every reachable state, over any opens, failed allocations and closes, with any interrupts
      between: the mask is the disjoint union of the open handles' masks, and an interrupt index is
      found for a handle and a direction exactly if that handle owns it there. */
  lemma OwnershipAlways(c: Can, events: seq<Event>, d: Can, i: nat, h: Handle, receive: bool)
    requires Initial(c) && AnyRun(c, events, d) && i < 32
    ensures Ownership(d) && forall g :: g in d.list ==> g in d.objects
    ensures h in d.list ==>
      (FindOwner(d, i, receive, |d.list|) == Some(h) <==> i in Positions(MaskOf(d.objects[h], receive)))
  {
    InitialIsInv(c);
    AnyRunKeepsOwnership(c, events, d);
    OwnedBound(d);
    if h in d.list { OneOwner(d, i, h, receive); }
  }
}
