/**
The driver's code: the loops over the mask, the bound list and the rings, each proved to compute the
step the run theorems are about.
 */
module CanController {
  import opened Options
  import opened BitMask
  import opened CanPort
  import opened CanDriver
  import opened CanRuns
  import CanReceive

  datatype IntStatus = Cause(warning: bool, busOff: bool) | MessageObject(status: nat, frame: Frame)

  /** A kick keeps the invariant, and leaves the head of a non-empty ring with the hardware. */
  lemma KickKeepsInv(c: Can, h: Handle)
    requires h in c.objects && c.objects[h].txInUseMask != 0 && c.objects[h].port.kicks > 0
    ensures SystemInv(c) && h in c.list ==>
      var d, i := Kick(c, h), TxIndex(c.objects[h]);
      && SystemInv(d) && d.objects[h].port.ring == c.objects[h].port.ring
      && (d.objects[h].port.ring != [] ==>
           d.objects[h].port.txPending && MailboxOf(d, i) == Some(d.objects[h].port.ring[0]))
  {
    if SystemInv(c) && h in c.list {
      TaskKeepsInv(c, h, TxMsg);
      KickInPlace(c, h);
      OwnIsSending(c, h);
      NoLossNoStall(c.objects[h].port, MailboxOf(c, TxIndex(c.objects[h])), TxMsg);
      hide SystemInv, TxIndex, Inv, Kick, Positions, MailboxOf;
    }
  }

  /** The frame is behind what was in the handle's buffer, or an overrun is counted if that was full; nothing
      else has changed. */
  predicate Delivered(c: Can, d: Can, h: Handle, frame: Frame)
    requires h in c.objects
  {
    var o := c.objects[h];
    var room := |o.rxBuffer| < o.rxSize;
    d == c.(objects := c.objects[h := o.(
      rxBuffer := if room then o.rxBuffer + [frame] else o.rxBuffer,
      readSem := if room then o.readSem + 1 else o.readSem,
      overrunCount := if room then o.overrunCount else o.overrunCount + 1)])
  }

  /** `CanReceive.ReceiveIs`, for whichever handle receives on the object. */
  lemma ReceivesJust(c: Can, i: nat, frame: Frame)
    requires i < 32 && forall h :: h in c.list ==> h in c.objects
    ensures forall h :: h in c.list && Ownership(c) && i in Positions(c.objects[h].rxInUseMask) ==>
      Delivered(c, ObjectInterrupt(c, i, frame), h, frame)
  {
    hide Positions, Ownership, ObjectInterrupt;
    forall h | h in c.list && Ownership(c) && i in Positions(c.objects[h].rxInUseMask) {
      CanReceive.ReceiveIs(c, h, i, frame);
    }
  }

  class Controller {
    var list: seq<Handle>
    var inUseMask: Mask
    var objects: map<Handle, Obj>
    var messages: map<nat, Message>
    /** History: the message objects that closed handles have left behind. */
    var stale: set<nat>
    var busOffCount: nat

    function State(): Can
      reads this
    {
      Can(list, inUseMask, objects, messages, stale)
    }

    method AllocateMessageObject(h: Handle, receive: bool) returns (index: int)
      requires h in objects
      modifies this`inUseMask, this`objects
      ensures (State(), index) == Allocate(old(State()), h, receive)
      ensures index <= 32 && objects.Keys == old(objects.Keys)
    {
      hide Has, Or, Bit;
      for i := 0 to 32
        invariant inUseMask == old(inUseMask) && objects == old(objects)
        invariant FirstFree(inUseMask, 0) == FirstFree(inUseMask, i)
      {
        if !Has(inUseMask, i) {
          var o := objects[h];
          if receive {
            objects := objects[h := o.(rxInUseMask := Or(o.rxInUseMask, Bit(i)))];
          } else {
            objects := objects[h := o.(txInUseMask := Or(o.txInUseMask, Bit(i)))];
          }
          inUseMask := Or(inUseMask, Bit(i));
          return i + 1;
        }
      }
      return -1;
    }

    method ReleaseMessageObjectMask(h: Handle, mask: Mask)
      requires h in objects
      modifies this`inUseMask, this`objects
      ensures State() == Release(old(State()), h, mask) && objects.Keys == old(objects.Keys)
    {
      hide Clear;
      var o := objects[h];
      o := o.(rxInUseMask := Clear(o.rxInUseMask, mask));
      o := o.(txInUseMask := Clear(o.txInUseMask, mask));
      objects := objects[h := o];
      inUseMask := Clear(inUseMask, mask);
    }

    method CloseHandle(h: Handle)
      requires h in objects
      modifies this
      ensures State() == Close(old(State()), h) && busOffCount == old(busOffCount)
    {
      hide Release, Clear, Owned;
      var told := messages.Keys * Owned(objects[h]);
      ReleaseMessageObjectMask(h, objects[h].rxInUseMask);
      ReleaseMessageObjectMask(h, objects[h].txInUseMask);
      if list != [] {
        list := Without(list, h);
      }
      objects := objects[h := objects[h].(isOpen := false)];
      stale := stale + told;
    }

    method OpenHandle(h: Handle, params: Params) returns (ok: bool)
      requires h in objects
      modifies this
      ensures (State(), ok) == Open(old(State()), h, params) && busOffCount == old(busOffCount)
    {
      hide Close, Allocate;
      if objects[h].isOpen {
        return false;
      }
      objects := objects[h := Started(objects[h], params)];
      if list == [] && !params.hwiOk {
        CloseHandle(h);
        return false;
      }
      list := list + [h];
      if !params.readSemOk || !params.writeSemOk {
        CloseHandle(h);
        return false;
      }
      if params.write {
        var index := AllocateMessageObject(h, false);
        if index <= 0 {
          CloseHandle(h);
          return false;
        }
      }
      if params.read {
        var index := AllocateMessageObject(h, true);
        if index <= 0 {
          CloseHandle(h);
          return false;
        }
        objects := objects[h := objects[h].(rxInUseMask := Bit(index - 1))];
        messages, stale := messages[index - 1 := Receiving], stale - {index - 1};
      }
      return true;
    }

    /** `CANMSP432E4_txMsg`: the caller has put its frame. Afterwards a waiting frame is never left
        behind: the ring's head is with the hardware. */
    method TransmitMessage(h: Handle)
      requires h in objects && objects[h].txInUseMask != 0 && objects[h].port.kicks > 0
      modifies this`objects, this`messages, this`stale
      ensures State() == Kick(old(State()), h)
      ensures old(SystemInv(State())) && h in list ==> SystemInv(State())
      ensures h in objects && objects[h].port.ring == old(objects[h].port.ring)
      ensures old(SystemInv(State())) && h in list && objects[h].port.ring != [] ==>
        && objects[h].port.txPending
        && MailboxOf(State(), old(TxIndex(objects[h]))) == Some(objects[h].port.ring[0])
    {
      KickKeepsInv(State(), h);
      hide SystemInv, LowestBit, MailboxOf;
      var i := TxIndex(objects[h]);
      var p := objects[h].port;
      p := p.(kicks := p.kicks - 1);
      if p.txPending == false {
        if p.ring != [] {
          messages, stale := messages[i := Sending(p.ring[0])], stale - {i};
          p := p.(txPending := true, handed := p.handed + [p.ring[0]]);
        }
      }
      objects := objects[h := objects[h].(port := p)];
    }

    /** One handle of `txBuffersFlush`: clear its message object and drain its ring. */
    method FlushHandle(h: Handle)
      requires h in objects
      modifies this`objects, this`messages, this`stale
      ensures State() == FlushOne(old(State()), h)
    {
      var p := objects[h].port;
      if objects[h].txInUseMask != 0 {
        messages, stale := messages - {TxIndex(objects[h])}, stale - {TxIndex(objects[h])};
        var pending := p.txPending;
        while p.ring != []
          invariant p == old(objects[h].port).(ring := p.ring, freeSlots := p.freeSlots, fates := p.fates)
          invariant p.freeSlots + |p.ring| == old(objects[h].port.freeSlots + |objects[h].port.ring|)
          invariant p.fates + Drops(p.ring, pending)
            == old(objects[h].port.fates + Drops(objects[h].port.ring, objects[h].port.txPending))
          decreases |p.ring|
        {
          assert p.fates + Drops(p.ring, pending)
            == (p.fates + [Dropped(p.ring[0], pending)]) + Drops(p.ring[1..], false);
          p := p.(fates := p.fates + [Dropped(p.ring[0], pending)], ring := p.ring[1..], freeSlots := p.freeSlots + 1);
          pending := false;
        }
        assert p.fates + Drops([], pending) == p.fates;
      }
      objects := objects[h := objects[h].(port := p.(txPending := false))];
    }

    method TxBuffersFlush()
      requires forall h :: h in list ==> h in objects.Keys
      modifies this`objects, this`messages, this`stale
      ensures State() == FlushAll(old(State()), |list|)
      ensures objects.Keys == old(objects.Keys)
    {
      hide FlushOne;
      var le := |list|;
      while le > 0
        invariant 0 <= le <= |list| && objects.Keys == old(objects.Keys)
        invariant FlushAll(State(), le) == FlushAll(old(State()), |list|)
      {
        FlushHandle(list[le - 1]);
        le := le - 1;
      }
    }

    /** The tx-complete branch for the handle that owns the index. */
    method TxComplete(h: Handle, i: nat)
      requires h in objects
      modifies this`objects, this`messages, this`stale
      ensures State() == SendComplete(old(State()), h, i)
    {
      var p := objects[h].port;
      if i in messages && messages[i].Sending? {
        messages, stale := messages - {i}, stale - {i};
      }
      if p.ring != [] {
        p := p.(ring := p.ring[1..], fates := p.fates + [Sent(p.ring[0])]);
      }
      p := p.(freeSlots := p.freeSlots + 1);
      if p.ring != [] {
        messages, stale := messages[i := Sending(p.ring[0])], stale - {i};
        p := p.(handed := p.handed + [p.ring[0]]);
      } else {
        p := p.(txPending := false);
      }
      objects := objects[h := objects[h].(port := p)];
    }

    /** `CANMSP432E4_hwiIntFxn`. In a controller whose masks are in order, the interrupt of an object that
        a bound handle receives on puts the frame behind what is in its buffer, or counts an overrun if that
        is full, and changes nothing else. */
    method HwiIntFxn(cause: IntStatus)
      requires forall h :: h in list ==> h in objects.Keys
      modifies this
      ensures match cause
        case Cause(warning, busOff) =>
          && State() == After(old(State()), Errors(warning, busOff))
          && busOffCount == old(busOffCount) + (if busOff then 1 else 0)
        case MessageObject(status, frame) =>
          && State() == (if 0 < status <= 32 then ObjectInterrupt(old(State()), status - 1, frame) else old(State()))
          && busOffCount == old(busOffCount)
      ensures forall h :: (cause.MessageObject? && 0 < cause.status <= 32 && h in old(list)
            && old(Ownership(State()) && cause.status - 1 in Positions(objects[h].rxInUseMask))) ==>
        Delivered(old(State()), State(), h, cause.frame)
    {
      hide FlushAll, ObjectInterrupt, FindOwner, Delivered, Positions, Ownership;
      match cause {
        case Cause(warning, busOff) =>
          if warning { TxBuffersFlush(); }
          if busOff {
            TxBuffersFlush();
            busOffCount := busOffCount + 1;
          }
        case MessageObject(status, frame) =>
          if status != 0 && status <= 32 {
            ghost var before := State();
            ReceivesJust(before, status - 1, frame);
            var found := ReceiveObject(status - 1, frame);
            if !found {
              assert State() == before;
              TransmitObject(status - 1);
            }
          }
      }
    }

    /** The traversal that looks for a receiving handle. */
    method ReceiveObject(i: nat, frame: Frame) returns (found: bool)
      requires i < 32 && forall h :: h in list ==> h in objects.Keys
      modifies this`objects
      ensures found <==> FindOwner(old(State()), i, true, |list|).Some?
      ensures !found ==> State() == old(State())
      ensures found ==> State() == ObjectInterrupt(old(State()), i, frame)
    {
      hide Has;
      var le := |list|;
      while le > 0
        invariant 0 <= le <= |list| && objects == old(objects)
        invariant FindOwner(old(State()), i, true, |list|) == FindOwner(old(State()), i, true, le)
      {
        var h := list[le - 1];
        if Has(objects[h].rxInUseMask, i) {
          var o := objects[h];
          if |o.rxBuffer| >= o.rxSize {
            objects := objects[h := o.(overrunCount := o.overrunCount + 1)];
          } else {
            objects := objects[h := o.(rxBuffer := o.rxBuffer + [frame], readSem := o.readSem + 1)];
          }
          return true;
        }
        le := le - 1;
      }
      return false;
    }

    /** The traversal that looks for a transmitting handle, when no handle receives on the index. */
    method TransmitObject(i: nat)
      requires i < 32 && forall h :: h in list ==> h in objects.Keys
      requires FindOwner(State(), i, true, |list|).None?
      modifies this`objects, this`messages, this`stale
      ensures forall frame :: State() == ObjectInterrupt(old(State()), i, frame)
    {
      hide Has, SendComplete;
      var le := |list|;
      while le > 0
        invariant 0 <= le <= |list| && State() == old(State())
        invariant FindOwner(old(State()), i, false, |list|) == FindOwner(old(State()), i, false, le)
      {
        var h := list[le - 1];
        if Has(objects[h].txInUseMask, i) {
          TxComplete(h, i);
          return;
        }
        le := le - 1;
      }
    }
  }
}
