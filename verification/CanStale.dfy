/**
Runs in which a closed handle leaves a message object as it was, and the object's next owner takes its
interrupt for its own. Another handle stays open throughout.
 */
module CanStale {
  import opened Options
  import opened BitMask
  import opened CanPort
  import opened CanDriver
  import opened CanRuns
  import opened CanOwnership

  // ---------- Runs, event by event ----------

  lemma {:induction false} Then(c: Can, events: seq<Event>, d: Can, e: Event)
    requires AnyRun(c, events, d) && CanHappen(d, e) && forall h :: h in d.list ==> h in d.objects.Keys
    ensures AnyRun(c, events + [e], After(d, e))
    decreases |events|
  {
    hide CanHappen, After;
    if events == [] {
      assert events + [e] == [e];
      assert [e][1..] == [];
    } else {
      Then(After(c, events[0]), events[1..], d, e);
      assert (events + [e])[1..] == events[1..] + [e];
    }
  }

  lemma NoEvents(c: Can)
    ensures AnyRun(c, [], c)
  {}

  // ---------- Masks ----------

  /** The mask with the first two message objects taken. */
  function Both(): Mask { Or(Bit(0), Bit(1)) }

  lemma HasZero(i: nat)
    requires i < 32
    ensures !Has(0, i)
  {
    ZeroHasNone(0, i);
  }

  lemma FirstTwo()
    ensures FirstFree(0, 0) == 0 && FirstFree(Bit(0), 0) == 1
    ensures Bit(0) != 0 && Bit(1) != 0 && Or(0, Bit(0)) == Bit(0) && Or(0, Bit(1)) == Bit(1)
  {
    hide Bit, Has, Or;
    HasZero(0);
    HasBit(0, 0);
    HasBit(0, 1);
    BitIsNotZero(0);
    BitIsNotZero(1);
    OrZero(Bit(0));
    OrZero(Bit(1));
  }

  lemma OrZero(m: Mask)
    ensures Or(0, m) == m
  {
    hide Or, Positions;
    PositionsOfOperations(0, m);
    ZeroIsEmpty(0);
    SamePositions(Or(0, m), m);
  }

  /** Clearing the second message object, in one direction or the other. */
  lemma SecondClears()
    ensures Clear(Clear(Both(), Bit(1)), 0) == Bit(0) && Clear(Clear(Both(), 0), Bit(1)) == Bit(0)
  {
    hide Bit, Or, Clear, Positions;
    PositionsOfBit(0);
    PositionsOfBit(1);
    ZeroIsEmpty(0);
    PositionsOfOperations(Bit(0), Bit(1));
    ClearTwice(Both(), Bit(1), 0);
    ClearTwice(Both(), 0, Bit(1));
    SamePositions(Clear(Clear(Both(), Bit(1)), 0), Bit(0));
    SamePositions(Clear(Clear(Both(), 0), Bit(1)), Bit(0));
  }

  // ---------- Opens and closes beside a handle that stays open ----------

  function Writing(capacity: nat): Params { Params(true, false, capacity, 0, true, true, true) }

  function Reading(size: nat): Params { Params(false, true, 0, size, true, true, true) }

  function Writer(o: Obj, capacity: nat, i: nat): Obj
    requires i < 32
  {
    Started(o, Writing(capacity)).(rxInUseMask := 0, txInUseMask := Bit(i))
  }

  function Reader(o: Obj, size: nat): Obj {
    Started(o, Reading(size)).(rxInUseMask := Bit(1), txInUseMask := 0)
  }

  predicate Unbound(o: Obj) { !o.isOpen && o.rxInUseMask == 0 && o.txInUseMask == 0 }

  /** Only `k` is open, for writing, in the first message object. */
  predicate Alone(c: Can, k: Handle) {
    && c.list == [k] && c.inUseMask == Bit(0)
    && k in c.objects && c.objects[k].rxInUseMask == 0 && c.objects[k].txInUseMask == Bit(0)
    && forall h :: h in c.objects && h != k ==> Unbound(c.objects[h])
  }

  lemma OpenFirst(c: Can, k: Handle, capacity: nat)
    requires Initial(c) && k in c.objects
    ensures var e := OpenHandle(k, Writing(capacity));
      && CanHappen(c, e)
      && After(c, e) == Can([k], Bit(0), c.objects[k := Writer(c.objects[k], capacity, 0)], map[], {})
      && Alone(After(c, e), k)
  {
    hide FirstFree, Or, Bit;
    FirstTwo();
    assert c.list + [k] == [k];
  }

  lemma OpenWriter(c: Can, k: Handle, h: Handle, capacity: nat)
    requires Alone(c, k) && h in c.objects && h != k
    ensures var e := OpenHandle(h, Writing(capacity));
      && CanHappen(c, e)
      && After(c, e)
        == Can([k, h], Both(), c.objects[h := Writer(c.objects[h], capacity, 1)], c.messages, c.stale)
  {
    hide FirstFree, Or, Bit;
    FirstTwo();
    assert c.list + [h] == [k, h];
  }

  lemma OpenReader(c: Can, k: Handle, h: Handle, size: nat)
    requires Alone(c, k) && h in c.objects && h != k
    ensures var e := OpenHandle(h, Reading(size));
      && CanHappen(c, e)
      && After(c, e) == Can([k, h], Both(), c.objects[h := Reader(c.objects[h], size)],
                            c.messages[1 := Receiving], c.stale - {1})
  {
    hide FirstFree, Or, Bit;
    FirstTwo();
    assert c.list + [h] == [k, h];
  }

  /** The second handle owns the second message object, in one direction. */
  predicate OwnsSecond(o: Obj) {
    (o.rxInUseMask == Bit(1) && o.txInUseMask == 0) || (o.rxInUseMask == 0 && o.txInUseMask == Bit(1))
  }

  lemma SecondOwned(o: Obj)
    requires OwnsSecond(o)
    ensures Owned(o) == {1} && DirectionsDisjoint(o)
  {
    hide Bit, Positions;
    PositionsOfBit(1);
    ZeroIsEmpty(0);
  }

  lemma WithoutSecond(k: Handle, h: Handle)
    requires k != h
    ensures Without([k, h], h) == [k]
  {
    assert [k, h][1..] == [h] && [h][1..] == [];
    assert Without([h], h) == [];
  }

  lemma SecondClosed(c: Can, d: Can, k: Handle, h: Handle)
    requires k in c.objects && h in c.objects && h != k
    requires d.list == [k, h] && d.inUseMask == Both() && h in d.objects && OwnsSecond(d.objects[h])
    requires d.objects == c.objects[h := d.objects[h]]
    ensures Close(d, h) == Can([k], Bit(0), c.objects[h := Closed(d.objects[h])], d.messages,
                               d.stale + d.messages.Keys * {1})
  {
    hide Bit, Clear, Close, Positions, Both, Owned, DirectionsDisjoint, Without;
    SecondOwned(d.objects[h]);
    SecondClears();
    CloseEmpties(d, h);
    WithoutSecond(k, h);
  }

  lemma CloseSecond(c: Can, d: Can, k: Handle, h: Handle)
    requires Alone(c, k) && h in c.objects && h != k
    requires d.list == [k, h] && d.inUseMask == Both() && h in d.objects && OwnsSecond(d.objects[h])
    requires d.objects == c.objects[h := d.objects[h]]
    ensures forall g :: g in d.list ==> g in d.objects.Keys
    ensures CanHappen(d, CloseHandle(h)) && After(d, CloseHandle(h)) == Close(d, h)
    ensures Alone(Close(d, h), k) && Close(d, h).objects.Keys == c.objects.Keys
    ensures Close(d, h).messages == d.messages
    ensures Close(d, h).stale == d.stale + d.messages.Keys * {1}
  {
    hide Bit, Close, Both, OwnsSecond;
    SecondClosed(c, d, k, h);
  }

  // ---------- A frame handed to the hardware ----------

  lemma WriterIndex(o: Obj)
    requires o.txInUseMask == Bit(1)
    ensures TxIndex(o) == 1 && o.txInUseMask != 0
  {
    hide Bit, Has;
    HasBit(1, 0);
    HasBit(1, 1);
    BitIsNotZero(1);
  }

  /** The second handle, open for writing, with its port somewhere. */
  function WithSecond(c: Can, k: Handle, h: Handle, capacity: nat, p: Port): Can
    requires h in c.objects
  {
    Can([k, h], Both(), c.objects[h := Writer(c.objects[h], capacity, 1).(port := p)], c.messages, c.stale)
  }

  /** The port after its first frame has been put. */
  function Waiting(capacity: nat, frame: Frame): Port
    requires capacity > 0
  {
    DoPut(DoPend(Fresh(capacity)), frame)
  }

  /** A write call up to its kick. */
  lemma PutReached(c0: Can, events: seq<Event>, c: Can, k: Handle, h: Handle, capacity: nat, frame: Frame)
    requires AnyRun(c0, events, c) && Alone(c, k) && h in c.objects && h != k && capacity > 0
    ensures exists more :: AnyRun(c0, more, WithSecond(c, k, h, capacity, Waiting(capacity, frame)))
  {
    hide Bit, AnyRun, CanHappen, After, Or, LowestBit, MailboxOf;
    var e1 := OpenHandle(h, Writing(capacity));
    OpenWriter(c, k, h, capacity);
    Then(c0, events, c, e1);
    var d1 := WithSecond(c, k, h, capacity, Fresh(capacity));
    assert After(c, e1) == d1;
    TaskAfter(d1, h, Pend);
    Then(c0, events + [e1], d1, Task(h, Pend));
    var d2 := WithSecond(c, k, h, capacity, DoPend(Fresh(capacity)));
    assert After(d1, Task(h, Pend)) == d2;
    TaskAfter(d2, h, Put(frame));
    Then(c0, events + [e1] + [Task(h, Pend)], d2, Task(h, Put(frame)));
    assert After(d2, Task(h, Put(frame))) == WithSecond(c, k, h, capacity, Waiting(capacity, frame));
  }

  lemma TaskAfter(d: Can, h: Handle, step: CanPort.Step)
    requires h in d.list && h in d.objects && d.objects[h].txInUseMask == Bit(1)
    requires step.Pend? || step.Put? || step.TxMsg?
    requires Enabled(d.objects[h].port, MailboxOf(d, TxIndex(d.objects[h])), step)
    requires forall g :: g in d.list ==> g in d.objects.Keys
    ensures CanHappen(d, Task(h, step)) && After(d, Task(h, step)) == TaskStep(d, h, step)
  {
    hide Bit, Enabled, TaskStep, LowestBit, MailboxOf;
    WriterIndex(d.objects[h]);
  }

  /** The kick: the frame is with the hardware. */
  lemma KickSends(c: Can, k: Handle, h: Handle, capacity: nat, frame: Frame)
    requires h in c.objects && k in c.objects && capacity > 0
    ensures var d := WithSecond(c, k, h, capacity, Waiting(capacity, frame));
      && d.objects[h].port.kicks > 0 && CanHappen(d, Task(h, TxMsg))
      && var e := After(d, Task(h, TxMsg));
      && e.messages == c.messages[1 := Sending(frame)] && e.stale == c.stale - {1}
      && e.list == d.list && e.inUseMask == d.inUseMask && h in e.objects
      && e.objects == c.objects[h := e.objects[h]]
      && e.objects[h].port.txPending && OwnsSecond(e.objects[h])
  {
    hide Bit, Or, LowestBit;
    var d := WithSecond(c, k, h, capacity, Waiting(capacity, frame));
    WriterIndex(d.objects[h]);
    TaskAfter(d, h, TxMsg);
  }

  // ---------- The interrupt that strays ----------

  /** The second message object can interrupt, and was left so by a closed handle. */
  predicate Left(c: Can, k: Handle) {
    Alone(c, k) && 1 in c.messages && 1 in c.stale
  }

  lemma FoundByWriter(d: Can, k: Handle, g: Handle)
    requires d.list == [k, g] && k in d.objects && g in d.objects
    requires d.objects[k].rxInUseMask == 0 && d.objects[g].rxInUseMask == 0 && d.objects[g].txInUseMask == Bit(1)
    ensures FindOwner(d, 1, true, 2) == None && FindOwner(d, 1, false, 2) == Some(g)
  {
    hide Has, Bit;
    HasZero(1);
    HasBit(1, 1);
  }

  lemma StrayInterrupt(c: Can, k: Handle, g: Handle, capacity: nat, p: Port, frame: Frame)
    requires Left(c, k) && g in c.objects && g != k
    ensures var d := WithSecond(c, k, g, capacity, p);
      && CanHappen(d, Object(1, frame)) && (forall h :: h in d.list ==> h in d.objects.Keys)
      && var e := After(d, Object(1, frame));
      && e.list == [k, g] && g in e.objects && e.objects[g].port == DoTxDone(p).0
      && !Careful(d, Object(1, frame))
  {
    hide Bit, Or, DoTxDone, FindOwner;
    var d := WithSecond(c, k, g, capacity, p);
    FoundByWriter(d, k, g);
    CompletePort(d, g, 1);
  }

  /** A slot too many, for the next owner of an object that was left behind. */
  lemma LeftLeaksSlot(c0: Can, events: seq<Event>, c: Can, k: Handle, g: Handle, capacity: nat, frame: Frame)
    requires AnyRun(c0, events, c) && Left(c, k) && g in c.objects && g != k
    ensures exists more, d ::
      && AnyRun(c0, more, d) && d.list == [k, g] && g in d.objects
      && d.objects[g].port.capacity == capacity && d.objects[g].port.freeSlots == capacity + 1
  {
    hide AnyRun, Left, Bit, CanHappen, After, Or, Alone;
    var e := OpenHandle(g, Writing(capacity));
    assert Alone(c, k) by { LeftIsAlone(c, k); }
    OpenWriter(c, k, g, capacity);
    AloneBinds(c, k);
    Then(c0, events, c, e);
    var d := WithSecond(c, k, g, capacity, Fresh(capacity));
    assert After(c, e) == d;
    StrayInterrupt(c, k, g, capacity, Fresh(capacity), frame);
    Then(c0, events + [e], d, Object(1, frame));
  }

  /** A frame lost, for the next owner: it was put, and is taken for sent without having been handed to the
      hardware. */
  lemma LeftLosesFrame(
      c0: Can, events: seq<Event>, c: Can, k: Handle, g: Handle, capacity: nat, lost: Frame, frame: Frame)
    requires AnyRun(c0, events, c) && Left(c, k) && g in c.objects && g != k && capacity > 0
    ensures exists more, d ::
      && AnyRun(c0, more, d) && d.list == [k, g] && g in d.objects
      && d.objects[g].port.written == [lost] && d.objects[g].port.ring == [] && d.objects[g].port.handed == []
  {
    hide AnyRun, Left, Bit, CanHappen, After, Or, Alone;
    assert Alone(c, k) by { LeftIsAlone(c, k); }
    PutReached(c0, events, c, k, g, capacity, lost);
    var d := WithSecond(c, k, g, capacity, Waiting(capacity, lost));
    var more :| AnyRun(c0, more, d);
    StrayInterrupt(c, k, g, capacity, Waiting(capacity, lost), frame);
    Then(c0, more, d, Object(1, frame));
    assert [] + [lost] == [lost];
  }

  lemma LeftIsAlone(c: Can, k: Handle)
    requires Left(c, k)
    ensures Alone(c, k)
  {}

  lemma AloneBinds(c: Can, k: Handle)
    requires Alone(c, k)
    ensures c.list == [k] && k in c.objects && forall h :: h in c.list ==> h in c.objects.Keys
  {}

  // ---------- From the very start ----------

  lemma AloneReached(c: Can, k: Handle, size: nat)
    requires Initial(c) && k in c.objects
    ensures exists events, d ::
      AnyRun(c, events, d) && Alone(d, k) && d.objects.Keys == c.objects.Keys && d.messages == map[] && d.stale == {}
  {
    hide AnyRun, Bit, CanHappen, After, Alone;
    OpenFirst(c, k, size);
    NoEvents(c);
    Then(c, [], c, OpenHandle(k, Writing(size)));
  }

  /** A close of the second handle, with its message object configured, leaves it so. */
  lemma CloseLeaves(c0: Can, events: seq<Event>, c: Can, d: Can, k: Handle, h: Handle)
    requires AnyRun(c0, events, d) && Alone(c, k) && h in c.objects && h != k
    requires d.list == [k, h] && d.inUseMask == Both() && h in d.objects && OwnsSecond(d.objects[h])
    requires d.objects == c.objects[h := d.objects[h]] && 1 in d.messages
    ensures exists more, e :: AnyRun(c0, more, e) && Left(e, k) && e.objects.Keys == c.objects.Keys
  {
    hide AnyRun, Alone, OwnsSecond, CanHappen, After, Close, Both;
    CloseSecond(c, d, k, h);
    Then(c0, events, d, CloseHandle(h));
    assert Left(After(d, CloseHandle(h)), k);
  }

  lemma ReaderOwnsSecond(o: Obj, size: nat)
    ensures OwnsSecond(Reader(o, size))
  {}

  /** A reader is opened and closed again: its message object goes on receiving. */
  lemma ReaderLeaves(c: Can, k: Handle, h: Handle)
    requires Initial(c) && k in c.objects && h in c.objects && k != h
    ensures exists events, d :: AnyRun(c, events, d) && Left(d, k) && d.objects.Keys == c.objects.Keys
  {
    hide AnyRun, Bit, CanHappen, After, Both, Close, Alone, Left, OwnsSecond, Reader, Initial;
    AloneReached(c, k, 1);
    var events, d :| AnyRun(c, events, d) && Alone(d, k) && d.objects.Keys == c.objects.Keys
      && d.messages == map[] && d.stale == {};
    var e := OpenHandle(h, Reading(1));
    OpenReader(d, k, h, 1);
    AloneBinds(d, k);
    Then(c, events, d, e);
    ReaderOwnsSecond(d.objects[h], 1);
    CloseLeaves(c, events + [e], d, After(d, e), k, h);
  }

  /** A writer is opened, writes and is closed before its frame is out: its message object goes on
      sending. */
  lemma WriterLeaves(c: Can, k: Handle, h: Handle, frame: Frame)
    requires Initial(c) && k in c.objects && h in c.objects && k != h
    ensures exists events, d :: AnyRun(c, events, d) && Left(d, k) && d.objects.Keys == c.objects.Keys
  {
    hide AnyRun, Bit, CanHappen, After, Both, Close, Alone, Left, OwnsSecond, Waiting, Initial;
    AloneReached(c, k, 1);
    var events, d :| AnyRun(c, events, d) && Alone(d, k) && d.objects.Keys == c.objects.Keys
      && d.messages == map[] && d.stale == {};
    AloneBinds(d, k);
    PutReached(c, events, d, k, h, 1, frame);
    var d1 := WithSecond(d, k, h, 1, Waiting(1, frame));
    var more :| AnyRun(c, more, d1);
    KickSends(d, k, h, 1, frame);
    Then(c, more, d1, Task(h, TxMsg));
    CloseLeaves(c, more + [Task(h, TxMsg)], d, After(d1, Task(h, TxMsg)), k, h);
  }

  /** With another handle open all the time: a handle is opened, and closed before its frame is out, or
      while it receives; the next handle on its message object is then given a free slot that it does not
      have, or loses its first frame. */
  lemma StaleRuns(c: Can, k: Handle, h: Handle, g: Handle, capacity: nat, frame: Frame, lost: Frame)
    requires Initial(c) && k in c.objects && h in c.objects && g in c.objects && h != k && g != k && capacity > 0
    ensures exists events, d ::
      && AnyRun(c, events, d) && d.list == [k, g] && g in d.objects
      && d.objects[g].port.capacity == capacity && d.objects[g].port.freeSlots == capacity + 1
    ensures exists events, d ::
      && AnyRun(c, events, d) && d.list == [k, g] && g in d.objects
      && d.objects[g].port.written == [lost] && d.objects[g].port.ring == [] && d.objects[g].port.handed == []
  {
    hide AnyRun, Left;
    WriterLeaves(c, k, h, frame);
    var events, d :| AnyRun(c, events, d) && Left(d, k) && d.objects.Keys == c.objects.Keys;
    LeftLeaksSlot(c, events, d, k, g, capacity, frame);
    ReaderLeaves(c, k, h);
    var other, e :| AnyRun(c, other, e) && Left(e, k) && e.objects.Keys == c.objects.Keys;
    LeftLosesFrame(c, other, e, k, g, capacity, lost, frame);
  }
}
