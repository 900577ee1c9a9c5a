/**
The whole controller: every open handle's transmit path runs in its own message object, over any
interleaving of opens, closes, write steps and interrupts.
 */
module CanSystem {
  import opened BitMask
  import opened CanPort
  import opened CanDriver

  // ---------- Opening ----------

  lemma {:induction false} WithoutAbsent(list: seq<Handle>, h: Handle)
    requires h !in list
    ensures Without(list, h) == list && Without(list + [h], h) == list
  {
    if list == [] {
      assert [] + [h] == [h] && [h][1..] == [];
    } else {
      assert list[0] in list && forall g :: g in list[1..] ==> g in list;
      WithoutAbsent(list[1..], h);
      assert (list + [h])[1..] == list[1..] + [h];
    }
  }

  function Bind(c: Can, h: Handle, o: Obj): Can {
    c.(objects := c.objects[h := o], list := c.list + [h])
  }

  lemma BindKeepsOwnership(c: Can, h: Handle, o: Obj)
    requires Ownership(c) && h in c.objects && h !in c.list
    requires o.isOpen && Owned(o) == {}
    ensures Ownership(Bind(c, h, o)) && DirectionsDisjoint(o)
  {
    hide Positions, Partition;
    ChangeOneHandle(c, Bind(c, h, o), h, o);
  }

  /** A handle that owns nothing has both masks zero. */
  lemma OwnsNothing(o: Obj)
    requires Owned(o) == {}
    ensures o.rxInUseMask == 0 && o.txInUseMask == 0 && DirectionsDisjoint(o)
  {
    ZeroIsEmpty(o.rxInUseMask);
    ZeroIsEmpty(o.txInUseMask);
  }

  lemma CloseUnbound(c: Can, h: Handle, o: Obj)
    requires Ownership(c) && h in c.objects && h !in c.list && Owned(c.objects[h]) == {}
    requires o.rxInUseMask == c.objects[h].rxInUseMask && o.txInUseMask == c.objects[h].txInUseMask
    ensures var d := Close(c.(objects := c.objects[h := o]), h);
      && Ownership(d) && d.list == c.list && d.messages == c.messages && d.stale == c.stale
      && d.objects == c.objects[h := Closed(o)]
      && Positions(d.inUseMask) == Positions(c.inUseMask)
  {
    hide Close, Positions, Partition, Without;
    var c0 := c.(objects := c.objects[h := o]);
    OwnsNothing(o);
    CloseClears(c0, h);
    WithoutAbsent(c.list, h);
    ZeroIsEmpty(0);
    ChangeOneHandle(c, Close(c0, h), h, Closed(o));
  }

  /** The receive mask that open stores over the allocator's is the mask the allocator left. */
  lemma OverwriteAgrees(c: Can, h: Handle, i: nat)
    requires h in c.objects && i == FirstFree(c.inUseMask, 0) < 32
    requires Positions(c.objects[h].rxInUseMask) == {}
    ensures Allocate(c, h, true).0.objects[h].rxInUseMask == Bit(i)
  {
    hide Bit, Has, Positions;
    AllocateTakes(c, h, true, i);
    PositionsOfBit(i);
    SamePositions(Allocate(c, h, true).0.objects[h].rxInUseMask, Bit(i));
  }

  /** The one message object a successful open allocates in a direction. */
  ghost predicate Holds(mask: Mask, wanted: bool) {
    if wanted then exists i: nat :: i < 32 && Positions(mask) == {i} else Positions(mask) == {}
  }

  /** The message objects of a set have been told to receive, and the others nothing. */
  ghost predicate Reconfigured(c: Can, d: Can, receivers: set<nat>) {
    && (forall i :: i in receivers ==> i in d.messages && d.messages[i] == Receiving && i !in d.stale)
    && (forall i :: i !in receivers ==>
         && (i in d.messages <==> i in c.messages) && (i in c.messages ==> d.messages[i] == c.messages[i])
         && (i in d.stale <==> i in c.stale))
  }

  /** What open leaves behind when it succeeds. */
  ghost predicate Opened(c: Can, d: Can, h: Handle, params: Params) {
    && h in d.objects && d.list == c.list + [h]
    && d.objects == c.objects[h := d.objects[h]]
    && Reconfigured(c, d, Positions(d.objects[h].rxInUseMask))
    && d.objects[h].isOpen && d.objects[h].port == Fresh(params.txSize)
    && Positions(d.objects[h].txInUseMask) !! Positions(c.inUseMask)
    && Positions(d.objects[h].rxInUseMask) !! Positions(c.inUseMask)
    && Holds(d.objects[h].txInUseMask, params.write) && Holds(d.objects[h].rxInUseMask, params.read)
  }

  /** What it leaves behind when it fails. */
  ghost predicate NotOpened(c: Can, d: Can, h: Handle) {
    && h in d.objects && h in c.objects && d.list == c.list && d.messages == c.messages
    && c.stale <= d.stale <= c.stale + (c.messages.Keys - Positions(c.inUseMask))
    && d.objects == c.objects[h := d.objects[h]]
    && (d.objects[h] == c.objects[h] || (!d.objects[h].isOpen && Owned(d.objects[h]) == {}))
    && Positions(d.inUseMask) == Positions(c.inUseMask)
  }

  /** An open under way: the handle is bound, and owns what has been taken for it. */
  ghost predicate Opening(c: Can, e: Can, h: Handle, params: Params) {
    && Ownership(e) && h in e.objects && e.list == c.list + [h]
    && e.objects == c.objects[h := e.objects[h]]
    && e.objects[h].isOpen && e.objects[h].port == Fresh(params.txSize)
    && Owned(e.objects[h]) !! Positions(c.inUseMask)
    && Positions(e.inUseMask) == Positions(c.inUseMask) + Owned(e.objects[h])
  }

  /** The hardware has been told nothing. */
  predicate Untold(c: Can, e: Can) {
    e.messages == c.messages && e.stale == c.stale
  }

  /** Every failure exit gives back what was taken. */
  lemma CloseBack(c: Can, e: Can, h: Handle, params: Params)
    requires Opening(c, e, h, params) && Untold(c, e) && h !in c.list && h in c.objects
    ensures NotOpened(c, Close(e, h), h) && Ownership(Close(e, h))
  {
    hide Close, Positions, Partition, Without, Owned;
    assert DirectionsDisjoint(e.objects[h]);
    CloseKeepsOwnership(e, h);
    CloseClears(e, h);
    WithoutAbsent(c.list, h);
    ZeroIsEmpty(0);
  }

  lemma OpeningStarts(c: Can, h: Handle, params: Params)
    requires Ownership(c) && h in c.objects && h !in c.list
    ensures Opening(c, Bind(c, h, Started(c.objects[h], params)), h, params)
    ensures Untold(c, Bind(c, h, Started(c.objects[h], params)))
    ensures var o := Started(c.objects[h], params);
      Positions(o.rxInUseMask) == Positions(o.txInUseMask) == {}
  {
    hide Positions, Partition;
    var o := Started(c.objects[h], params);
    assert Owned(o) == Owned(c.objects[h]) == {};
    BindKeepsOwnership(c, h, o);
  }

  lemma OpeningTakes(c: Can, e: Can, h: Handle, params: Params, receive: bool)
    requires Opening(c, e, h, params)
    ensures var (d, index) := Allocate(e, h, receive);
      index > 0 ==>
        && index <= 32 && index - 1 == FirstFree(e.inUseMask, 0) && Opening(c, d, h, params) && Untold(e, d)
        && Positions(d.objects[h].rxInUseMask)
          == Positions(e.objects[h].rxInUseMask) + (if receive then {index - 1} else {})
        && Positions(d.objects[h].txInUseMask)
          == Positions(e.objects[h].txInUseMask) + (if receive then {} else {index - 1})
  {
    hide Partition, Or, Bit, Has, Ownership, Allocate, Positions;
    assert Ownership(e) && h in e.list;
    AllocateKeepsOwnership(e, h, receive);
    var i := FirstFree(e.inUseMask, 0);
    if i < 32 {
      AllocateTakes(e, h, receive, i);
    }
    AllocateIndex(e, h, receive);
  }

  lemma AllocateIndex(e: Can, h: Handle, receive: bool)
    requires h in e.objects
    ensures var i := FirstFree(e.inUseMask, 0);
      Allocate(e, h, receive).1 == if i < 32 then i + 1 else -1
    ensures Allocate(e, h, receive).1 < 0 ==> Allocate(e, h, receive).0 == e
  {}

  lemma OpenReadTakes(e: Can, h: Handle, params: Params)
    requires h in e.objects && params.read && FirstFree(e.inUseMask, 0) < 32
    requires Positions(e.objects[h].rxInUseMask) == {}
    ensures OpenRead(e, h, params) == (ConfigureReceive(Allocate(e, h, true).0, FirstFree(e.inUseMask, 0)), true)
  {
    hide Allocate, Positions, Bit;
    AllocateIndex(e, h, true);
    AllocateTakes(e, h, true, FirstFree(e.inUseMask, 0));
    OverwriteAgrees(e, h, FirstFree(e.inUseMask, 0));
    var d := Allocate(e, h, true).0;
    assert d.objects[h := d.objects[h]] == d.objects;
  }

  lemma OpenReadFails(e: Can, h: Handle, params: Params)
    requires h in e.objects && params.read && FirstFree(e.inUseMask, 0) == 32
    ensures OpenRead(e, h, params) == (Close(e, h), false)
  {
    hide Close;
    AllocateIndex(e, h, true);
  }

  lemma StageTakes(c: Can, e: Can, h: Handle, params: Params)
    requires Opening(c, e, h, params) && FirstFree(e.inUseMask, 0) < 32
    requires Positions(e.objects[h].rxInUseMask) == {}
    ensures var d := Allocate(e, h, true).0;
      && Opening(c, d, h, params) && Untold(e, d)
      && Positions(d.objects[h].rxInUseMask) == {FirstFree(e.inUseMask, 0)}
      && Positions(d.objects[h].txInUseMask) == Positions(e.objects[h].txInUseMask)
  {
    OpeningBinds(c, e, h, params);
    hide Opening, Positions, Allocate, Holds, FirstFree;
    var i := FirstFree(e.inUseMask, 0);
    AllocateIndex(e, h, true);
    OpeningTakes(c, e, h, params, true);
    OpeningBinds(c, Allocate(e, h, true).0, h, params);
  }

  lemma HoldsOne(mask: Mask, i: nat)
    requires i < 32 && Positions(mask) == {i}
    ensures Holds(mask, true)
  {}

  /** What the receive half of an open leaves behind. */
  ghost predicate ReadStage(c: Can, e: Can, h: Handle, params: Params, r: (Can, bool))
    requires h in e.objects
  {
    if r.1 then
      && Opening(c, r.0, h, params) && Holds(r.0.objects[h].rxInUseMask, params.read)
      && Reconfigured(c, r.0, Positions(r.0.objects[h].rxInUseMask))
      && Positions(r.0.objects[h].txInUseMask) == Positions(e.objects[h].txInUseMask)
    else Ownership(r.0) && NotOpened(c, r.0, h)
  }

  lemma ReaderTold(c: Can, e: Can, h: Handle, params: Params)
    requires Opening(c, e, h, params) && Untold(c, e) && params.read && FirstFree(e.inUseMask, 0) < 32
    requires Positions(e.objects[h].rxInUseMask) == {}
    ensures ReadStage(c, e, h, params, OpenRead(e, h, params))
  {
    var i := FirstFree(e.inUseMask, 0);
    OpeningBinds(c, e, h, params);
    OpenReadTakes(e, h, params);
    StageTakes(c, e, h, params);
    var d := Allocate(e, h, true).0;
    OpeningBinds(c, d, h, params);
    HoldsOne(d.objects[h].rxInUseMask, i);
    TellingKeepsOpening(c, d, h, params, i);
    ToldOne(c, d, i);
    hide Opening, Ownership, NotOpened, Positions, Allocate, Close, OpenRead, Holds, Untold, Reconfigured, FirstFree;
  }

  lemma ToldOne(c: Can, d: Can, i: nat)
    requires Untold(c, d)
    ensures Reconfigured(c, ConfigureReceive(d, i), {i})
  {}

  lemma NothingTold(c: Can, e: Can)
    requires Untold(c, e)
    ensures Reconfigured(c, e, {})
  {}

  lemma OpenReadStage(c: Can, e: Can, h: Handle, params: Params)
    requires Opening(c, e, h, params) && Untold(c, e) && h !in c.list && h in c.objects
    requires Positions(e.objects[h].rxInUseMask) == {}
    ensures ReadStage(c, e, h, params, OpenRead(e, h, params))
  {
    OpeningBinds(c, e, h, params);
    if !params.read {
      NothingTold(c, e);
      hide Opening, Ownership, NotOpened, Positions, Untold, Reconfigured;
    } else if FirstFree(e.inUseMask, 0) < 32 {
      ReaderTold(c, e, h, params);
    } else {
      OpenReadFails(e, h, params);
      CloseBack(c, e, h, params);
      hide Opening, Ownership, NotOpened, Positions, OpenRead, Close;
    }
  }

  /** Telling the hardware changes no ownership. */
  lemma TellingKeepsOpening(c: Can, e: Can, h: Handle, params: Params, i: nat)
    requires Opening(c, e, h, params)
    ensures Opening(c, ConfigureReceive(e, i), h, params)
  {
    hide Positions, Partition, Owned, DirectionsDisjoint;
    assert Shares(ConfigureReceive(e, i)) == Shares(e);
  }

  lemma OpeningBinds(c: Can, e: Can, h: Handle, params: Params)
    requires Opening(c, e, h, params)
    ensures h in e.objects
  {}

  lemma WriterTakes(c: Can, e: Can, h: Handle, params: Params)
    requires Opening(c, e, h, params) && Untold(c, e) && FirstFree(e.inUseMask, 0) < 32
    requires Positions(e.objects[h].rxInUseMask) == Positions(e.objects[h].txInUseMask) == {}
    ensures var d := Allocate(e, h, false).0;
      && Opening(c, d, h, params) && Untold(c, d) && Positions(d.objects[h].rxInUseMask) == {}
      && Holds(d.objects[h].txInUseMask, true)
  {
    OpeningBinds(c, e, h, params);
    hide Opening, Positions, Allocate, Holds, FirstFree;
    var i := FirstFree(e.inUseMask, 0);
    AllocateIndex(e, h, false);
    OpeningTakes(c, e, h, params, false);
    OpeningBinds(c, Allocate(e, h, false).0, h, params);
    HoldsOne(Allocate(e, h, false).0.objects[h].txInUseMask, i);
  }

  lemma SameHolds(m: Mask, n: Mask, wanted: bool)
    requires Holds(m, wanted) && Positions(m) == Positions(n)
    ensures Holds(n, wanted)
  {
    hide Positions;
  }

  lemma OpenWriteStage(c: Can, e: Can, h: Handle, params: Params)
    requires Opening(c, e, h, params) && Untold(c, e) && h !in c.list && h in c.objects
    requires Positions(e.objects[h].rxInUseMask) == Positions(e.objects[h].txInUseMask) == {}
    ensures var (d, ok) := OpenWrite(e, h, params);
      if ok
      then Opening(c, d, h, params) && Reconfigured(c, d, Positions(d.objects[h].rxInUseMask))
           && Holds(d.objects[h].rxInUseMask, params.read) && Holds(d.objects[h].txInUseMask, params.write)
      else Ownership(d) && NotOpened(c, d, h)
  {
    hide Ownership, NotOpened, Positions, Allocate, Close, OpenRead, FirstFree, Holds, Reconfigured, Untold, Opening;
    OpeningBinds(c, e, h, params);
    AllocateIndex(e, h, false);
    if params.write && FirstFree(e.inUseMask, 0) == 32 {
      CloseBack(c, e, h, params);
    } else if params.write {
      WriterTakes(c, e, h, params);
      OpeningBinds(c, Allocate(e, h, false).0, h, params);
      ReadAfterWrite(c, Allocate(e, h, false).0, h, params);
    } else {
      HoldsNone(e.objects[h].txInUseMask);
      ReadAfterWrite(c, e, h, params);
    }
  }

  /** The receive half, behind the transmit half. */
  lemma ReadAfterWrite(c: Can, e: Can, h: Handle, params: Params)
    requires Opening(c, e, h, params) && Untold(c, e) && h !in c.list && h in c.objects
    requires Positions(e.objects[h].rxInUseMask) == {} && Holds(e.objects[h].txInUseMask, params.write)
    ensures var (d, ok) := OpenRead(e, h, params);
      if ok
      then Opening(c, d, h, params) && Reconfigured(c, d, Positions(d.objects[h].rxInUseMask))
           && Holds(d.objects[h].rxInUseMask, params.read) && Holds(d.objects[h].txInUseMask, params.write)
      else Ownership(d) && NotOpened(c, d, h)
  {
    hide Ownership, NotOpened, Positions, Allocate, Close, OpenRead, FirstFree, Holds, Reconfigured, Untold, Opening;
    OpeningBinds(c, e, h, params);
    OpenReadStage(c, e, h, params);
    var (d, ok) := OpenRead(e, h, params);
    if ok {
      OpeningBinds(c, d, h, params);
      SameHolds(e.objects[h].txInUseMask, d.objects[h].txInUseMask, params.write);
    }
  }

  lemma HoldsNone(mask: Mask)
    requires Positions(mask) == {}
    ensures Holds(mask, false)
  {}

  /** Open succeeds with one message object a direction that nobody else owns, or fails and leaves
      the mask as it was; either way ownership is kept. */
  lemma OpenKeepsOwnership(c: Can, h: Handle, params: Params)
    requires Ownership(c) && h in c.objects
    ensures var (d, ok) := Open(c, h, params);
      Ownership(d) && (if ok then Opened(c, d, h, params) else NotOpened(c, d, h))
  {
    hide Ownership, Opening, Positions, Close, OpenWrite;
    if !c.objects[h].isOpen {
      Unbound(c, h);
      if c.list == [] && !params.hwiOk {
        CloseUnbound(c, h, Started(c.objects[h], params));
      } else {
        var c1 := Bind(c, h, Started(c.objects[h], params));
        OpeningStarts(c, h, params);
        if params.readSemOk && params.writeSemOk {
          OpenWriteStage(c, c1, h, params);
          if OpenWrite(c1, h, params).1 { OpenSucceeds(c, OpenWrite(c1, h, params).0, h, params); }
        } else {
          CloseBack(c, c1, h, params);
        }
      }
    }
  }

  lemma Unbound(c: Can, h: Handle)
    requires Ownership(c) && h in c.objects && !c.objects[h].isOpen
    ensures h !in c.list && Owned(c.objects[h]) == {}
  {}

  lemma OpenSucceeds(c: Can, d: Can, h: Handle, params: Params)
    requires Opening(c, d, h, params) && Reconfigured(c, d, Positions(d.objects[h].rxInUseMask))
    requires Holds(d.objects[h].rxInUseMask, params.read) && Holds(d.objects[h].txInUseMask, params.write)
    ensures Ownership(d) && Opened(c, d, h, params)
  {
    hide Positions, Ownership, Holds, Reconfigured;
  }
}
