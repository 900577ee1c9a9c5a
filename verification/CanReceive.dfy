/**
The receive side of the CAN handles over whole runs: which frames a reader gets, in which order, and what
becomes of the others; and what opens and error flushes come to.
 */
module CanReceive {
  import opened Integers
  import opened BitMask
  import opened CanPort
  import opened CanDriver
  import opened CanSystem
  import opened CanRuns
  import opened CanOwnership

  // ---------- What a reader is promised ----------

  /** A handle's inbox since its last open: its size, the frames that arrived, those of them that found
      room, and how many of these have been read. */
  datatype Inbox = Inbox(size: nat, arrived: seq<Frame>, kept: seq<Frame>, taken: nat)

  function Unread(box: Inbox): seq<Frame> {
    if box.taken <= |box.kept| then box.kept[box.taken..] else []
  }

  /** A frame comes: it is kept if fewer than `size` are unread. */
  function Arrive(box: Inbox, frame: Frame): Inbox {
    box.(arrived := box.arrived + [frame], kept := if |Unread(box)| < box.size then box.kept + [frame] else box.kept)
  }

  /** What an event is to the inbox of `h`: an attempt to open the closed handle empties it, a read takes
      one, and the interrupt of an object that the bound handle receives on brings one. */
  ghost function Heard(c: Can, e: Event, h: Handle, box: Inbox): Inbox {
    match e
    case OpenHandle(g, params) =>
      if g == h && h in c.objects && !c.objects[h].isOpen then Inbox(params.rxSize, [], [], 0) else box
    case Read(g) => if g == h && box.taken < |box.kept| then box.(taken := box.taken + 1) else box
    case Object(i, frame) =>
      if h in c.list && h in c.objects && i in Positions(c.objects[h].rxInUseMask) then Arrive(box, frame) else box
    case _ => box
  }

  ghost function HeardAll(c: Can, events: seq<Event>, h: Handle, box: Inbox): Inbox
    decreases |events|
  {
    if events == [] || !CanHappen(c, events[0]) || !(forall g :: g in c.list ==> g in c.objects.Keys) then box
    else HeardAll(After(c, events[0]), events[1..], h, Heard(c, events[0], h, box))
  }

  /** The handle's variables hold just the unread frames, in the order in which they came. */
  predicate Matches(o: Obj, box: Inbox) {
    && box.taken <= |box.kept| && o.rxSize == box.size
    && o.rxBuffer == Unread(box) && |o.rxBuffer| <= o.rxSize
    && o.readSem == |o.rxBuffer|
    && |box.kept| + o.overrunCount == |box.arrived|
  }

  /** An open handle's variables match. */
  predicate InOrder(c: Can, h: Handle, box: Inbox) {
    h in c.objects && c.objects[h].isOpen ==> Matches(c.objects[h], box)
  }

  // ---------- What leaves the receive side alone ----------

  predicate SameRx(o: Obj, p: Obj) {
    && p.rxBuffer == o.rxBuffer && p.rxSize == o.rxSize && p.readSem == o.readSem
    && p.overrunCount == o.overrunCount
  }

  lemma AllocateRx(c: Can, h: Handle, receive: bool)
    requires h in c.objects
    ensures var d := Allocate(c, h, receive).0; h in d.objects && SameRx(c.objects[h], d.objects[h])
  {
    hide Or, Bit;
  }

  lemma CloseRx(c: Can, h: Handle, g: Handle)
    requires h in c.objects && g in c.objects
    ensures var d := Close(c, h);
      && g in d.objects && SameRx(c.objects[g], d.objects[g])
      && d.objects[g].isOpen == (g != h && c.objects[g].isOpen)
      && (g != h ==> d.objects[g] == c.objects[g])
  {
    hide Clear, Without;
  }

  lemma OpenReadRx(c: Can, h: Handle, params: Params)
    requires h in c.objects
    ensures var d := OpenRead(c, h, params).0; h in d.objects && SameRx(c.objects[h], d.objects[h])
  {
    hide Allocate, Close, Bit;
    AllocateRx(c, h, true);
    CloseRx(Allocate(c, h, true).0, h, h);
  }

  lemma OpenWriteRx(c: Can, h: Handle, params: Params)
    requires h in c.objects
    ensures var d := OpenWrite(c, h, params).0; h in d.objects && SameRx(c.objects[h], d.objects[h])
  {
    hide Allocate, Close, OpenRead;
    AllocateRx(c, h, false);
    var d := Allocate(c, h, false).0;
    CloseRx(d, h, h);
    OpenReadRx(c, h, params);
    OpenReadRx(d, h, params);
  }

  /** An attempt to open a closed handle empties its receive side, whether or not it succeeds; an attempt
      to open an open one changes nothing. */
  lemma OpenRx(c: Can, h: Handle, params: Params)
    requires h in c.objects
    ensures c.objects[h].isOpen ==> Open(c, h, params) == (c, false)
    ensures !c.objects[h].isOpen ==>
      var d := Open(c, h, params).0;
      && h in d.objects && d.objects[h].rxBuffer == [] && d.objects[h].readSem == 0
      && d.objects[h].overrunCount == 0 && d.objects[h].rxSize == params.rxSize
  {
    hide Close, OpenWrite;
    var o := Started(c.objects[h], params);
    var c0 := c.(objects := c.objects[h := o]);
    CloseRx(c0, h, h);
    CloseRx(c0.(list := c0.list + [h]), h, h);
    OpenWriteRx(c0.(list := c0.list + [h]), h, params);
  }

  lemma OpenOthers(c: Can, h: Handle, params: Params, g: Handle)
    requires Ownership(c) && h in c.objects && g != h
    ensures var d := Open(c, h, params).0;
      (g in d.objects <==> g in c.objects) && (g in c.objects ==> d.objects[g] == c.objects[g])
  {
    OpenKeepsOwnership(c, h, params);
    hide Ownership, Open, Reconfigured, Holds, Positions;
  }

  lemma TaskRx(c: Can, g: Handle, step: Step, h: Handle)
    requires g in c.objects && h in c.objects && (step.Pend? || step.Put? || step.TxMsg?)
    requires Enabled(c.objects[g].port, MailboxOf(c, TxIndex(c.objects[g])), step)
    ensures var d := TaskStep(c, g, step);
      h in d.objects && SameRx(c.objects[h], d.objects[h]) && d.objects[h].isOpen == c.objects[h].isOpen
  {
    hide LowestBit, DoTxMsg, DoPend, DoPut, MailboxOf, Kick;
    if step.TxMsg? { KickRx(c, g, h); }
  }

  lemma KickRx(c: Can, g: Handle, h: Handle)
    requires g in c.objects && h in c.objects && c.objects[g].port.kicks > 0
    ensures var d := Kick(c, g);
      h in d.objects && SameRx(c.objects[h], d.objects[h]) && d.objects[h].isOpen == c.objects[h].isOpen
  {
    hide Kick;
    KickObjects(c, g);
  }

  /** A kick changes no more of the objects than one port. */
  lemma KickObjects(c: Can, g: Handle)
    requires g in c.objects && c.objects[g].port.kicks > 0
    ensures var d := Kick(c, g);
      g in d.objects && d.objects == c.objects[g := c.objects[g].(port := d.objects[g].port)]
  {
    hide TxIndex, DoTxMsg, MailboxOf, WithPort;
    WithPortObjects(c, g, DoTxMsg(c.objects[g].port, MailboxOf(c, TxIndex(c.objects[g]))).0);
  }

  lemma WithPortObjects(c: Can, g: Handle, p: Port)
    requires g in c.objects
    ensures WithPort(c, g, p).objects == c.objects[g := c.objects[g].(port := p)]
    ensures WithPort(c, g, p).objects[g].port == p
  {}

  lemma CompleteRx(c: Can, g: Handle, i: nat, h: Handle)
    requires g in c.objects && h in c.objects
    ensures var d := SendComplete(c, g, i);
      h in d.objects && SameRx(c.objects[h], d.objects[h]) && d.objects[h].isOpen == c.objects[h].isOpen
  {
    hide DoTxDone;
  }

  // ---------- Interrupts ----------

  /** The interrupt of an object that a bound handle receives on does just this to the handle. */
  lemma ReceiveIs(c: Can, h: Handle, i: nat, frame: Frame)
    requires Ownership(c) && h in c.list && i < 32 && h in c.objects
    requires i in Positions(c.objects[h].rxInUseMask)
    ensures forall g :: g in c.list ==> g in c.objects
    ensures var o, d := c.objects[h], ObjectInterrupt(c, i, frame); var room := |o.rxBuffer| < o.rxSize;
      && d == c.(objects := c.objects[h := d.objects[h]])
      && d.objects[h] == o.(
        rxBuffer := if room then o.rxBuffer + [frame] else o.rxBuffer,
        readSem := if room then o.readSem + 1 else o.readSem,
        overrunCount := if room then o.overrunCount else o.overrunCount + 1)
  {
    hide Partition, Has, SendComplete;
    OneOwner(c, i, h, true);
  }

  lemma InterruptRx(c: Can, i: nat, frame: Frame, h: Handle)
    requires Ownership(c) && i < 32 && h in c.objects
    requires !(h in c.list && i in Positions(c.objects[h].rxInUseMask))
    ensures forall g :: g in c.list ==> g in c.objects
    ensures var d := ObjectInterrupt(c, i, frame);
      h in d.objects && SameRx(c.objects[h], d.objects[h]) && d.objects[h].isOpen == c.objects[h].isOpen
  {
    hide Partition, Has, SendComplete;
    match FindOwner(c, i, true, |c.list|)
    case Some(g) =>
      assert i in Positions(c.objects[g].rxInUseMask);
    case None =>
      match FindOwner(c, i, false, |c.list|)
      case Some(g) => CompleteRx(c, g, i, h);
      case None =>
  }

  // ---------- Error flushes ----------

  /** A handle before and after an error flush: a writer's ring is empty, its slots are given back and
      nothing is pending; the rest is as it was. */
  predicate Flushed(o: Obj, p: Obj) {
    && p == o.(port := p.port)
    && p.port == o.port.(ring := p.port.ring, freeSlots := p.port.freeSlots, fates := p.port.fates, txPending := false)
    && (if o.txInUseMask != 0 then
          && p.port.ring == [] && p.port.freeSlots == o.port.freeSlots + |o.port.ring|
          && p.port.fates == o.port.fates + Drops(o.port.ring, o.port.txPending)
        else p.port == o.port.(txPending := false))
  }

  lemma FlushOneIs(c: Can, h: Handle)
    requires h in c.objects
    ensures var d := FlushOne(c, h);
      && h in d.objects && Flushed(c.objects[h], d.objects[h]) && d.objects == c.objects[h := d.objects[h]]
      && d.messages.Keys == c.messages.Keys - (if c.objects[h].txInUseMask != 0 then {TxIndex(c.objects[h])} else {})
  {
    hide LowestBit, Drops;
  }

  lemma FlushTwice(o: Obj, p: Obj, q: Obj)
    requires Flushed(o, p) && Flushed(p, q)
    ensures Flushed(o, q)
  {
    var fates := o.port.fates + Drops(o.port.ring, o.port.txPending);
    assert fates + [] == fates;
  }

  lemma {:induction false} FlushAllIs(c: Can, count: nat, h: Handle)
    requires count <= |c.list| && h in c.objects && forall g :: g in c.list ==> g in c.objects.Keys
    ensures var d := FlushAll(c, count);
      && h in d.objects
      && (if h in c.list[..count] then Flushed(c.objects[h], d.objects[h]) else d.objects[h] == c.objects[h])
    decreases count
  {
    hide FlushOne, Flushed, LowestBit;
    if count > 0 {
      var g := c.list[count - 1];
      FlushOneIs(c, g);
      var e := FlushOne(c, g);
      FlushAllIs(e, count - 1, h);
      assert c.list[..count] == c.list[..count - 1] + [g];
      if h == g && h in c.list[..count - 1] {
        FlushTwice(c.objects[h], e.objects[h], FlushAll(c, count).objects[h]);
      }
    }
  }

  lemma {:induction false} FlushAllClears(c: Can, count: nat, h: Handle)
    requires count <= |c.list| && h in c.objects && forall g :: g in c.list ==> g in c.objects.Keys
    ensures var d := FlushAll(c, count);
      && d.messages.Keys <= c.messages.Keys
      && (h in c.list[..count] && c.objects[h].txInUseMask != 0 ==> TxIndex(c.objects[h]) !in d.messages)
    decreases count
  {
    hide FlushOne, Flushed, LowestBit;
    if count > 0 {
      var g := c.list[count - 1];
      FlushOneIs(c, g);
      FlushAllClears(FlushOne(c, g), count - 1, h);
      assert c.list[..count] == c.list[..count - 1] + [g];
      FlushKeepsMask(c, g);
    }
  }

  lemma FlushKeepsMask(c: Can, g: Handle)
    requires g in c.objects
    ensures var d := FlushOne(c, g);
      forall h :: h in c.objects ==> h in d.objects && d.objects[h].txInUseMask == c.objects[h].txInUseMask
  {
    hide DoFlush, LowestBit;
  }

  /** After an error warning or bus-off every bound writer's ring is empty, all of its slots are given
      back, and its message object is cleared. */
  lemma ErrorsFlush(c: Can, warning: bool, busOff: bool, h: Handle)
    requires h in c.objects && forall g :: g in c.list ==> g in c.objects.Keys
    ensures var d := After(c, Errors(warning, busOff));
      && h in d.objects
      && (if h in c.list && (warning || busOff) then Flushed(c.objects[h], d.objects[h])
          else d.objects[h] == c.objects[h])
      && (h in c.list && (warning || busOff) && c.objects[h].txInUseMask != 0 ==>
            TxIndex(c.objects[h]) !in d.messages)
  {
    hide Flushed, FlushAll, LowestBit;
    FlushedBinds(c, |c.list|);
    var d := if warning then FlushAll(c, |c.list|) else c;
    FlushAllIs(c, |c.list|, h);
    FlushAllIs(d, |d.list|, h);
    FlushAllClears(c, |c.list|, h);
    FlushAllClears(d, |d.list|, h);
    assert c.list[..|c.list|] == c.list;
    if warning && busOff && h in c.list {
      FlushTwice(c.objects[h], d.objects[h], FlushAll(d, |d.list|).objects[h]);
      FlushedMask(c.objects[h], d.objects[h]);
    }
  }

  lemma FlushedMask(o: Obj, p: Obj)
    requires Flushed(o, p)
    ensures p.txInUseMask == o.txInUseMask && SameRx(o, p) && p.isOpen == o.isOpen
  {}

  // ---------- Every event, and whole runs ----------

  lemma ArriveMatches(o: Obj, box: Inbox, frame: Frame)
    requires Matches(o, box)
    ensures Matches(Receive(o, frame), Arrive(box, frame))
  {
    var kept := box.kept + [frame];
    assert kept[box.taken..] == box.kept[box.taken..] + [frame];
  }

  lemma EventInOrder(c: Can, e: Event, h: Handle, box: Inbox)
    requires Ownership(c) && CanHappen(c, e) && (forall g :: g in c.list ==> g in c.objects.Keys)
    requires InOrder(c, h, box) && h in c.objects
    ensures InOrder(After(c, e), h, Heard(c, e, h, box))
  {
    hide Ownership, Open, Close, FlushAll, ObjectInterrupt, TaskStep, Enabled, Positions, Receive;
    match e
    case OpenHandle(g, params) =>
      if g == h { OpenRx(c, h, params); } else { OpenOthers(c, g, params, h); }
    case CloseHandle(g) => CloseRx(c, g, h);
    case Task(g, step) => TaskRx(c, g, step, h);
    case Read(g) =>
    case Errors(warning, busOff) =>
      ErrorsFlush(c, warning, busOff, h);
      if h in c.list && (warning || busOff) { FlushedMask(c.objects[h], After(c, e).objects[h]); }
    case Object(i, frame) => ObjectInOrder(c, i, frame, h, box);
  }

  lemma ObjectInOrder(c: Can, i: nat, frame: Frame, h: Handle, box: Inbox)
    requires Ownership(c) && i < 32 && InOrder(c, h, box) && h in c.objects
    ensures forall g :: g in c.list ==> g in c.objects
    ensures InOrder(ObjectInterrupt(c, i, frame), h, Heard(c, Object(i, frame), h, box))
  {
    hide ObjectInterrupt, Positions, Partition;
    if h in c.list && i in Positions(c.objects[h].rxInUseMask) {
      ReceiveIs(c, h, i, frame);
      ArriveMatches(c.objects[h], box, frame);
    } else {
      InterruptRx(c, i, frame, h);
    }
  }

  lemma {:induction false} RunInOrder(c: Can, events: seq<Event>, d: Can, h: Handle, box: Inbox)
    requires Ownership(c) && AnyRun(c, events, d) && InOrder(c, h, box) && h in c.objects
    ensures InOrder(d, h, HeardAll(c, events, h, box))
    decreases |events|
  {
    hide Ownership, CanHappen, After, InOrder, Heard;
    if events != [] {
      EventInOrder(c, events[0], h, box);
      EventKeepsOwnership(c, events[0]);
      RunInOrder(After(c, events[0]), events[1..], d, h, Heard(c, events[0], h, box));
    }
  }

  /** Over every run, with any opens, closes, writes, flushes and interrupts in between: what an open
      handle's readers have taken and what is still in its buffer are the frames that came since its open
      and found room, in the order of their arrival; the others are counted as overruns; and its semaphore
      counts the buffer. */
  lemma ReceivedInOrder(c: Can, events: seq<Event>, d: Can, h: Handle, box: Inbox)
    requires Initial(c) && AnyRun(c, events, d) && h in d.list && h in c.objects
    ensures h in d.objects
    ensures var o, now := d.objects[h], HeardAll(c, events, h, box);
      && now.taken <= |now.kept| && now.kept == now.kept[..now.taken] + o.rxBuffer
      && o.rxSize == now.size && |o.rxBuffer| <= now.size
      && o.readSem == |o.rxBuffer| && o.overrunCount == |now.arrived| - |now.kept|
  {
    hide Positions, Partition;
    InitialIsInv(c);
    AnyRunKeepsOwnership(c, events, d);
    RunInOrder(c, events, d, h, box);
    BoundInObjects(d, h);
  }

  // ---------- Without reads ----------

  predicate NoReads(events: seq<Event>, h: Handle) {
    forall i :: 0 <= i < |events| ==> events[i] != Read(h)
  }

  /** The frames kept are the first that came, up to the size of the buffer. */
  predicate FirstOnes(box: Inbox) {
    box.taken == 0 && box.kept == box.arrived[..Min(box.size, |box.arrived|)]
  }

  lemma {:induction false} KeepsFirstOnes(c: Can, events: seq<Event>, h: Handle, box: Inbox)
    requires NoReads(events, h) && FirstOnes(box)
    ensures FirstOnes(HeardAll(c, events, h, box))
    decreases |events|
  {
    hide CanHappen, After, Positions;
    if events != [] && CanHappen(c, events[0]) && forall g :: g in c.list ==> g in c.objects.Keys {
      assert events[0] != Read(h);
      assert forall i :: 0 <= i < |events[1..]| ==> events[1..][i] == events[i + 1];
      KeepsFirstOnes(After(c, events[0]), events[1..], h, Heard(c, events[0], h, box));
    }
  }

  /** As long as nobody reads, an open handle's buffer holds the first frames that came, up to its size,
      and the overruns are the rest. */
  lemma FirstKept(c: Can, events: seq<Event>, d: Can, h: Handle)
    requires Initial(c) && AnyRun(c, events, d) && h in d.list && h in c.objects && NoReads(events, h)
    ensures h in d.objects
    ensures var o, arrived := d.objects[h], HeardAll(c, events, h, Inbox(0, [], [], 0)).arrived;
      && o.rxBuffer == arrived[..Min(o.rxSize, |arrived|)]
      && o.readSem == |o.rxBuffer| && o.overrunCount == |arrived| - |o.rxBuffer|
  {
    ReceivedInOrder(c, events, d, h, Inbox(0, [], [], 0));
    KeepsFirstOnes(c, events, h, Inbox(0, [], [], 0));
  }

  // ---------- When an open succeeds ----------

  ghost function FreeObjects(c: Can): set<nat> {
    set i: nat | i < 32 && i !in Positions(c.inUseMask)
  }

  lemma FreeIff(c: Can)
    ensures FirstFree(c.inUseMask, 0) < 32 <==> FreeObjects(c) != {}
  {
    var i := FirstFree(c.inUseMask, 0);
    if i < 32 { assert i in FreeObjects(c); }
  }

  lemma AllocateUses(c: Can, h: Handle, receive: bool)
    requires h in c.objects && FirstFree(c.inUseMask, 0) < 32
    ensures var (d, index) := Allocate(c, h, receive);
      index > 0 && h in d.objects && |FreeObjects(d)| == |FreeObjects(c)| - 1
  {
    hide Positions, Or, Bit, Allocate, Has, FirstFree;
    var i := FirstFree(c.inUseMask, 0);
    AllocateTakes(c, h, receive, i);
    AllocateIndex(c, h, receive);
    OneLess(FreeObjects(c), FreeObjects(Allocate(c, h, receive).0), i);
  }

  lemma OneLess(a: set<nat>, b: set<nat>, i: nat)
    requires i in a && i !in b && forall j :: j != i ==> (j in a <==> j in b)
    ensures |b| == |a| - 1
  {
    assert b == a - {i};
  }

  lemma OpenReadIff(c: Can, h: Handle, params: Params)
    requires h in c.objects
    ensures OpenRead(c, h, params).1 <==> |FreeObjects(c)| >= if params.read then 1 else 0
  {
    hide FreeObjects, Close, Allocate, Bit;
    FreeIff(c);
    AllocateIndex(c, h, true);
    if FirstFree(c.inUseMask, 0) < 32 { AllocateUses(c, h, true); }
  }

  lemma OpenWriteIff(c: Can, h: Handle, params: Params)
    requires h in c.objects
    ensures OpenWrite(c, h, params).1 <==>
      |FreeObjects(c)| >= (if params.write then 1 else 0) + (if params.read then 1 else 0)
  {
    hide FreeObjects, Close, Allocate, OpenRead;
    FreeIff(c);
    AllocateIndex(c, h, false);
    if params.write && FirstFree(c.inUseMask, 0) < 32 {
      AllocateUses(c, h, false);
      OpenReadIff(Allocate(c, h, false).0, h, params);
    } else {
      OpenReadIff(c, h, params);
    }
  }

  /** An open succeeds exactly if the handle is closed, the platform grants what it asks for, and a message
      object is free for each direction. */
  lemma OpensIff(c: Can, h: Handle, params: Params)
    requires h in c.objects
    ensures Open(c, h, params).1 <==>
      && !c.objects[h].isOpen && (c.list != [] || params.hwiOk) && params.readSemOk && params.writeSemOk
      && |FreeObjects(c)| >= (if params.write then 1 else 0) + (if params.read then 1 else 0)
  {
    hide FreeObjects, Close, OpenWrite;
    var c0 := c.(objects := c.objects[h := Started(c.objects[h], params)], list := c.list + [h]);
    assert FreeObjects(c0) == FreeObjects(c) by { SameFree(c, c0); }
    OpenWriteIff(c0, h, params);
  }

  lemma SameFree(c: Can, d: Can)
    requires d.inUseMask == c.inUseMask
    ensures FreeObjects(d) == FreeObjects(c)
  {}
}
