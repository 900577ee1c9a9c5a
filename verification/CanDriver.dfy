/**
The CAN driver on one controller: 32 hardware message objects shared out among the open handles by a
bit mask, and the interrupt handler that finds the handle an interrupt belongs to.
 */
module CanDriver {
  import opened BitMask
  import opened CanPort

  type Handle = nat

  /** The object of a handle. */
  datatype Obj = Obj(
    isOpen: bool, rxInUseMask: Mask, txInUseMask: Mask, port: Port,
    rxBuffer: seq<Frame>, rxSize: nat, readSem: nat, overrunCount: nat)

  /** What the application passes to open, and what the platform grants it. */
  datatype Params = Params(
    write: bool, read: bool, txSize: nat, rxSize: nat, hwiOk: bool, readSemOk: bool, writeSemOk: bool)

  /** What the hardware has been told about a message object: to send a frame, or to receive. */
  datatype Message = Sending(frame: Frame) | Receiving

  /** The controller: the bound handles, the mask of message objects in use, the handles' objects, and
      the message objects that can interrupt, by index 0 to 31. The last is history: which of these were
      left so by a handle that has been closed since. */
  datatype Can = Can(
    list: seq<Handle>, inUseMask: Mask, objects: map<Handle, Obj>, messages: map<nat, Message>, stale: set<nat>)

  // ---------- Message objects ----------

  /** The first free message object from `i` on; 32 when there is none. */
  function FirstFree(mask: Mask, i: nat): (r: nat)
    requires i <= 32
    ensures i <= r <= 32 && (r < 32 ==> !Has(mask, r))
    ensures forall j :: i <= j < r ==> Has(mask, j)
    decreases 32 - i
  {
    if i == 32 || !Has(mask, i) then i else FirstFree(mask, i + 1)
  }

  /** The lowest bit of a mask from `i` on; 32 when there is none. */
  function LowestBit(mask: Mask, i: nat): (r: nat)
    requires i <= 32
    ensures i <= r <= 32 && (r < 32 ==> Has(mask, r))
    ensures forall j :: i <= j < r ==> !Has(mask, j)
    decreases 32 - i
  {
    if i == 32 || Has(mask, i) then i else LowestBit(mask, i + 1)
  }

  function Allocate(c: Can, h: Handle, receive: bool): (r: (Can, int))
    requires h in c.objects
  {
    var i := FirstFree(c.inUseMask, 0);
    if i == 32 then (c, -1)
    else
      var o := c.objects[h];
      var o' := if receive then o.(rxInUseMask := Or(o.rxInUseMask, Bit(i)))
                else o.(txInUseMask := Or(o.txInUseMask, Bit(i)));
      (c.(objects := c.objects[h := o'], inUseMask := Or(c.inUseMask, Bit(i))), i + 1)
  }

  function Release(c: Can, h: Handle, mask: Mask): Can
    requires h in c.objects
  {
    var o := c.objects[h];
    var cleared := o.(rxInUseMask := Clear(o.rxInUseMask, mask), txInUseMask := Clear(o.txInUseMask, mask));
    c.(objects := c.objects[h := cleared],
       inUseMask := Clear(c.inUseMask, mask))
  }

  function Owned(o: Obj): set<nat> {
    Positions(o.rxInUseMask) + Positions(o.txInUseMask)
  }

  function Without(list: seq<Handle>, h: Handle): (r: seq<Handle>)
    ensures forall g :: g in r <==> g in list && g != h
  {
    if list == [] then []
    else if list[0] == h then Without(list[1..], h)
    else [list[0]] + Without(list[1..], h)
  }

  /** Close clears masks and the list; it tells the hardware nothing. */
  function Close(c: Can, h: Handle): Can
    requires h in c.objects
  {
    var c1 := Release(c, h, c.objects[h].rxInUseMask);
    var c2 := Release(c1, h, c1.objects[h].txInUseMask);
    c2.(list := Without(c2.list, h), objects := c2.objects[h := c2.objects[h].(isOpen := false)],
        stale := c.stale + c.messages.Keys * Owned(c.objects[h]))
  }

  /** `CANMessageSet` for a receiver: whatever the message object was told before is overwritten. */
  function ConfigureReceive(c: Can, i: nat): Can {
    c.(messages := c.messages[i := Receiving], stale := c.stale - {i})
  }

  /** The object a handle starts with when it is opened. */
  function Started(o: Obj, params: Params): Obj {
    o.(isOpen := true, port := Fresh(params.txSize), rxBuffer := [], rxSize := params.rxSize,
       readSem := 0, overrunCount := 0)
  }

  /** The receive half of open; its mask is stored over what the allocator left there. */
  function OpenRead(c: Can, h: Handle, params: Params): (r: (Can, bool))
    requires h in c.objects
  {
    if !params.read then (c, true)
    else
      var (d, index) := Allocate(c, h, true);
      if index <= 0 then (Close(d, h), false)
      else
        var e := d.(objects := d.objects[h := d.objects[h].(rxInUseMask := Bit(index - 1))]);
        (ConfigureReceive(e, index - 1), true)
  }

  function OpenWrite(c: Can, h: Handle, params: Params): (r: (Can, bool))
    requires h in c.objects
  {
    if !params.write then OpenRead(c, h, params)
    else
      var (d, index) := Allocate(c, h, false);
      if index <= 0 then (Close(d, h), false) else OpenRead(d, h, params)
  }

  /** Open, with its failure exits: each of them closes the handle again. */
  function Open(c: Can, h: Handle, params: Params): (r: (Can, bool))
    requires h in c.objects
  {
    if c.objects[h].isOpen then (c, false)
    else
      var c0 := c.(objects := c.objects[h := Started(c.objects[h], params)]);
      if c.list == [] && !params.hwiOk then (Close(c0, h), false)
      else
        var c1 := c0.(list := c0.list + [h]);
        if !params.readSemOk || !params.writeSemOk then (Close(c1, h), false)
        else OpenWrite(c1, h, params)
  }

  // ---------- Ownership ----------

  predicate NoDuplicates(list: seq<Handle>) {
    forall i, j :: 0 <= i < j < |list| ==> list[i] != list[j]
  }

  /** `taken` is the disjoint union of the shares. */
  ghost predicate Partition(shares: map<Handle, set<nat>>, taken: set<nat>) {
    && (forall h, g :: h in shares && g in shares && h != g ==> shares[h] !! shares[g])
    && (forall h :: h in shares ==> shares[h] <= taken)
    && (forall i :: i in taken ==> exists h :: h in shares && i in shares[h])
  }

  function Shares(c: Can): map<Handle, set<nat>> {
    map h | h in c.objects :: Owned(c.objects[h])
  }

  ghost predicate DirectionsDisjoint(o: Obj) {
    Positions(o.rxInUseMask) !! Positions(o.txInUseMask)
  }

  /** The bound handles are the open ones. */
  ghost predicate BoundIsOpen(c: Can) {
    && NoDuplicates(c.list)
    && (forall h :: h in c.list <==> h in c.objects && c.objects[h].isOpen)
  }

  /** The mask is the disjoint union of what the bound handles own, in each direction, and no other
      handle owns anything. */
  ghost predicate Ownership(c: Can) {
    && BoundIsOpen(c)
    && Partition(Shares(c), Positions(c.inUseMask))
    && (forall h :: h in c.objects ==> DirectionsDisjoint(c.objects[h]))
    && (forall h :: h in c.objects && h !in c.list ==> Owned(c.objects[h]) == {})
  }

  lemma ChangeShare(shares: map<Handle, set<nat>>, taken: set<nat>, h: Handle, share: set<nat>)
    requires Partition(shares, taken) && h in shares && share !! taken - shares[h]
    ensures Partition(shares[h := share], taken - shares[h] + share)
  {
    var now, all := shares[h := share], taken - shares[h] + share;
    forall i | i in all ensures exists g :: g in now && i in now[g] {
      if i in share {
        assert h in now && i in now[h];
      } else {
        var g :| g in shares && i in shares[g];
        assert g in now && i in now[g];
      }
    }
  }

  /** The change of one handle's object keeps ownership when what the handle owns afterwards is
      what the mask says it owns, and nobody else's. */
  lemma ChangeOneHandle(c: Can, d: Can, h: Handle, o: Obj)
    requires Ownership(c) && h in c.objects && d.objects == c.objects[h := o]
    requires BoundIsOpen(d) && DirectionsDisjoint(o) && (o.isOpen || Owned(o) == {})
    requires var others := Positions(c.inUseMask) - Owned(c.objects[h]);
      Owned(o) !! others && Positions(d.inUseMask) == others + Owned(o)
    ensures Ownership(d)
  {
    hide Positions, Owned, NoDuplicates, Partition, DirectionsDisjoint;
    ChangeShare(Shares(c), Positions(c.inUseMask), h, Owned(o));
    assert Shares(d) == Shares(c)[h := Owned(o)];
  }

  lemma AllocateTakes(c: Can, h: Handle, receive: bool, i: nat)
    requires h in c.objects && i == FirstFree(c.inUseMask, 0) < 32
    ensures var d := Allocate(c, h, receive).0;
      && d.list == c.list && d.messages == c.messages && d.stale == c.stale
      && d.objects == c.objects[h := d.objects[h]]
      && d.objects[h] == c.objects[h].(rxInUseMask := d.objects[h].rxInUseMask, txInUseMask := d.objects[h].txInUseMask)
      && i !in Positions(c.inUseMask)
      && Positions(d.inUseMask) == Positions(c.inUseMask) + {i}
      && Positions(d.objects[h].rxInUseMask)
        == Positions(c.objects[h].rxInUseMask) + (if receive then {i} else {})
      && Positions(d.objects[h].txInUseMask)
        == Positions(c.objects[h].txInUseMask) + (if receive then {} else {i})
  {
    hide Has, Or, Bit;
    PositionsOfBit(i);
    PositionsOfOperations(c.objects[h].rxInUseMask, Bit(i));
    PositionsOfOperations(c.objects[h].txInUseMask, Bit(i));
    PositionsOfOperations(c.inUseMask, Bit(i));
  }

  /** An allocation fails exactly when all 32 message objects are taken; otherwise it hands out the
      lowest free one. Either way it keeps ownership. */
  lemma AllocateKeepsOwnership(c: Can, h: Handle, receive: bool)
    requires Ownership(c) && h in c.list
    ensures var (d, index) := Allocate(c, h, receive);
      && Ownership(d)
      && (index < 0 <==> forall j: nat :: j < 32 ==> j in Positions(c.inUseMask))
      && (index >= 0 ==>
            && 1 <= index <= 32 && index - 1 !in Positions(c.inUseMask)
            && (forall j: nat :: j < index - 1 ==> j in Positions(c.inUseMask)))
  {
    hide Or, Bit, Partition;
    var i := FirstFree(c.inUseMask, 0);
    if i < 32 {
      OwnsWithin(c, h);
      AllocateTakes(c, h, receive, i);
      TakingKeepsOwnership(c, Allocate(c, h, receive).0, h, i);
    }
  }

  lemma TakingKeepsOwnership(c: Can, d: Can, h: Handle, i: nat)
    requires Ownership(c) && h in c.list && d.list == c.list && h in d.objects
    requires d.objects == c.objects[h := d.objects[h]] && d.objects[h].isOpen
    requires i !in Positions(c.inUseMask) && Positions(d.inUseMask) == Positions(c.inUseMask) + {i}
    requires DirectionsDisjoint(d.objects[h]) && Owned(d.objects[h]) == Owned(c.objects[h]) + {i}
    ensures Ownership(d)
  {
    hide Positions, Partition, Owned, DirectionsDisjoint;
    OwnsWithin(c, h);
    ChangeOneHandle(c, d, h, d.objects[h]);
  }

  lemma OwnsWithin(c: Can, h: Handle)
    requires Ownership(c) && h in c.objects
    ensures Owned(c.objects[h]) <= Positions(c.inUseMask)
  {
    hide Owned;
    assert Shares(c)[h] == Owned(c.objects[h]);
  }

  lemma {:induction false} WithoutKeepsDistinct(list: seq<Handle>, h: Handle)
    requires NoDuplicates(list)
    ensures NoDuplicates(Without(list, h))
  {
    if list != [] {
      WithoutKeepsDistinct(list[1..], h);
      var rest := Without(list[1..], h);
      assert forall g :: g in list[1..] ==> g != list[0];
      forall j | 0 <= j < |rest| ensures rest[j] != list[0] {
        assert rest[j] in rest;
      }
    }
  }

  function Closed(o: Obj): Obj {
    o.(isOpen := false, rxInUseMask := 0, txInUseMask := 0)
  }

  lemma ReleaseClears(c: Can, h: Handle, mask: Mask)
    requires h in c.objects
    ensures var d, o := Release(c, h, mask), c.objects[h];
      && d.list == c.list && d.messages == c.messages && d.stale == c.stale
      && d.inUseMask == Clear(c.inUseMask, mask)
      && d.objects == c.objects[h := d.objects[h]]
      && d.objects[h]
        == o.(rxInUseMask := Clear(o.rxInUseMask, mask), txInUseMask := Clear(o.txInUseMask, mask))
  {
    hide Clear;
  }

  /** The list and the object after a close. */
  lemma CloseEmpties(c: Can, h: Handle)
    requires h in c.objects && DirectionsDisjoint(c.objects[h])
    ensures var d, o := Close(c, h), c.objects[h];
      && d.list == Without(c.list, h) && d.messages == c.messages
      && d.stale == c.stale + c.messages.Keys * Owned(o)
      && d.objects == c.objects[h := Closed(o)]
      && d.inUseMask == Clear(Clear(c.inUseMask, o.rxInUseMask), o.txInUseMask)
  {
    hide Clear, Positions, Without, Release, Owned;
    var o := c.objects[h];
    ReleaseAll(o.rxInUseMask, o.txInUseMask);
    ReleaseClears(c, h, o.rxInUseMask);
    var c1 := Release(c, h, o.rxInUseMask);
    ReleaseClears(c1, h, c1.objects[h].txInUseMask);
  }

  lemma CloseClears(c: Can, h: Handle)
    requires h in c.objects && DirectionsDisjoint(c.objects[h])
    ensures var d, o := Close(c, h), c.objects[h];
      && d.list == Without(c.list, h) && d.messages == c.messages
      && d.stale == c.stale + c.messages.Keys * Owned(o)
      && d.objects == c.objects[h := Closed(o)]
      && Positions(d.inUseMask) == Positions(c.inUseMask) - Owned(o)
  {
    hide Clear, Positions, Without, Close;
    CloseEmpties(c, h);
    ClearTwice(c.inUseMask, c.objects[h].rxInUseMask, c.objects[h].txInUseMask);
  }

  lemma ClearTwice(m: Mask, rx: Mask, tx: Mask)
    ensures Positions(Clear(Clear(m, rx), tx)) == Positions(m) - (Positions(rx) + Positions(tx))
  {
    hide Clear, Positions;
    PositionsOfOperations(m, rx);
    PositionsOfOperations(Clear(m, rx), tx);
    SubtractTwice(Positions(m), Positions(rx), Positions(tx));
  }

  lemma SubtractTwice(a: set<nat>, b: set<nat>, c: set<nat>)
    ensures a - b - c == a - (b + c)
  {}

  /** Closing gives back exactly what the handle owned. */
  lemma CloseKeepsOwnership(c: Can, h: Handle)
    requires Ownership(c) && h in c.list
    ensures Ownership(Close(c, h))
  {
    hide Close, Positions, Partition;
    CloseClears(c, h);
    ZeroIsEmpty(0);
    WithoutKeepsDistinct(c.list, h);
    ChangeOneHandle(c, Close(c, h), h, Closed(c.objects[h]));
  }

  /** Clearing the receive mask leaves a disjoint transmit mask alone and itself empty. */
  lemma ReleaseAll(rx: Mask, tx: Mask)
    requires Positions(rx) !! Positions(tx)
    ensures Clear(rx, rx) == 0 && Clear(tx, rx) == tx && Clear(0, tx) == 0 && Clear(tx, tx) == 0
  {
    hide Clear;
    PositionsOfOperations(rx, rx);
    PositionsOfOperations(tx, rx);
    PositionsOfOperations(tx, tx);
    PositionsOfOperations(0, tx);
    ZeroIsEmpty(Clear(rx, rx));
    ZeroIsEmpty(Clear(tx, tx));
    ZeroIsEmpty(0);
    ZeroIsEmpty(Clear(0, tx));
    SamePositions(Clear(tx, rx), tx);
  }
}
