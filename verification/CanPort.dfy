/**
The transmit path of one CAN handle: writers take a free slot from a counting semaphore, put a frame
in the ring buffer and kick the transmitter; the tx-complete interrupt takes the frame out again and
loads the next one; an error interrupt flushes everything. Each of these is one atomic step.
 */
module CanPort {
  import opened Options

  datatype Frame = Frame(id: nat, eff: bool, rtr: bool, dlc: nat, data: seq<int>)

  /** What became of a frame that has left the ring. */
  datatype Fate = Sent(frame: Frame) | Dropped(frame: Frame, handed: bool)

  /** The variables of the path. `writers` counts the write calls between taking a free slot and
      putting their frame, `kicks` those between putting it and calling `txMsg`. The last three are
      history: the frames put, the frames handed to the hardware, and the fates in order. */
  datatype Port = Port(
    capacity: nat, ring: seq<Frame>, freeSlots: nat, txPending: bool, writers: nat, kicks: nat,
    written: seq<Frame>, handed: seq<Frame>, fates: seq<Fate>)

  /** A hardware message object: the frame it is sending, if any. */
  type Mailbox = Option<Frame>

  function Fresh(capacity: nat): Port {
    Port(capacity, [], capacity, false, 0, 0, [], [], [])
  }

  // ---------- The steps ----------

  datatype Step = Pend | Put(frame: Frame) | TxMsg | TxDone | Flush

  /** When a step can happen: a writer waits for a free slot, goes through its calls in order, and
      the hardware interrupts only for a message it was given. */
  predicate Enabled(p: Port, m: Mailbox, step: Step) {
    match step
    case Pend => p.freeSlots > 0
    case Put(_) => p.writers > 0
    case TxMsg => p.kicks > 0
    case TxDone => m.Some?
    case Flush => true
  }

  function DoPend(p: Port): Port
    requires p.freeSlots > 0
  {
    p.(freeSlots := p.freeSlots - 1, writers := p.writers + 1)
  }

  /** A put into a full ring fails and the frame is lost. */
  function DoPut(p: Port, frame: Frame): Port
    requires p.writers > 0
  {
    var q := p.(writers := p.writers - 1, kicks := p.kicks + 1);
    if |p.ring| < p.capacity then q.(ring := p.ring + [frame], written := p.written + [frame]) else q
  }

  function DoTxMsg(p: Port, m: Mailbox): (r: (Port, Mailbox))
    requires p.kicks > 0
  {
    var q := p.(kicks := p.kicks - 1);
    if !p.txPending && p.ring != [] then
      (q.(txPending := true, handed := p.handed + [p.ring[0]]), Some(p.ring[0]))
    else (q, m)
  }

  /** The tx-complete interrupt. It posts the semaphore even if the ring was empty. */
  function DoTxDone(p: Port): (r: (Port, Mailbox)) {
    var q := p.(freeSlots := p.freeSlots + 1);
    var rest := if p.ring == [] then [] else p.ring[1..];
    var fates := if p.ring == [] then p.fates else p.fates + [Sent(p.ring[0])];
    if rest != [] then
      (q.(ring := rest, fates := fates, handed := p.handed + [rest[0]]), Some(rest[0]))
    else (q.(ring := rest, fates := fates, txPending := false), None)
  }

  function Drops(ring: seq<Frame>, pending: bool): seq<Fate> {
    if ring == [] then [] else [Dropped(ring[0], pending)] + Drops(ring[1..], false)
  }

  function DoFlush(p: Port): (r: (Port, Mailbox)) {
    (p.(ring := [], freeSlots := p.freeSlots + |p.ring|, txPending := false,
        fates := p.fates + Drops(p.ring, p.txPending)), None)
  }

  function Do(p: Port, m: Mailbox, step: Step): (r: (Port, Mailbox))
    requires Enabled(p, m, step)
  {
    match step
    case Pend => (DoPend(p), m)
    case Put(frame) => (DoPut(p, frame), m)
    case TxMsg => DoTxMsg(p, m)
    case TxDone => DoTxDone(p)
    case Flush => DoFlush(p)
  }

  // ---------- The invariant ----------

  /** The frames of a list of fates, and those of them that were handed to the hardware. */
  function FramesOf(fates: seq<Fate>): seq<Frame> {
    if fates == [] then [] else FramesOf(fates[..|fates| - 1]) + [fates[|fates| - 1].frame]
  }

  function HandedOf(fates: seq<Fate>): seq<Frame> {
    if fates == [] then []
    else
      var last := fates[|fates| - 1];
      HandedOf(fates[..|fates| - 1]) + if last.Sent? || last.handed then [last.frame] else []
  }

  /** Nothing is lost and no slot is leaked; what the hardware has is the ring's head; a waiting
      frame is either being sent or about to be kicked; and the history is in order. */
  predicate Inv(p: Port, m: Mailbox) {
    && p.freeSlots + |p.ring| + p.writers == p.capacity
    && (if p.txPending then p.ring != [] && m == Some(p.ring[0]) else m == None)
    && (p.ring != [] && !p.txPending ==> p.kicks > 0)
    && p.written == FramesOf(p.fates) + p.ring
    && p.handed == HandedOf(p.fates) + if p.txPending then [p.ring[0]] else []
  }

  lemma FatesAppend(fates: seq<Fate>, fate: Fate)
    ensures FramesOf(fates + [fate]) == FramesOf(fates) + [fate.frame]
    ensures HandedOf(fates + [fate]) == HandedOf(fates) + if fate.Sent? || fate.handed then [fate.frame] else []
  {
    assert (fates + [fate])[..|fates|] == fates;
  }

  lemma {:induction false} DropsAppend(fates: seq<Fate>, ring: seq<Frame>, pending: bool)
    ensures FramesOf(fates + Drops(ring, pending)) == FramesOf(fates) + ring
    ensures HandedOf(fates + Drops(ring, pending)) == HandedOf(fates) + if pending && ring != [] then [ring[0]] else []
    decreases |ring|
  {
    hide FramesOf, HandedOf;
    if ring == [] {
      assert fates + Drops(ring, pending) == fates;
    } else {
      var fate := Dropped(ring[0], pending);
      FatesAppend(fates, fate);
      DropsAppend(fates + [fate], ring[1..], false);
      assert fates + Drops(ring, pending) == (fates + [fate]) + Drops(ring[1..], false);
      assert FramesOf(fates) + [ring[0]] + ring[1..] == FramesOf(fates) + ring;
    }
  }

  /** Every step keeps the invariant. */
  lemma StepKeepsInv(p: Port, m: Mailbox, step: Step)
    requires Inv(p, m) && Enabled(p, m, step)
    ensures Inv(Do(p, m, step).0, Do(p, m, step).1)
  {
    hide FramesOf, HandedOf, Drops;
    match step
    case Pend =>
    case Put(frame) =>
      assert p.written + [frame] == FramesOf(p.fates) + (p.ring + [frame]);
    case TxMsg =>
    case TxDone =>
      FatesAppend(p.fates, Sent(p.ring[0]));
      assert [p.ring[0]] + p.ring[1..] == p.ring;
    case Flush =>
      DropsAppend(p.fates, p.ring, p.txPending);
  }

  /** A put never meets a full ring, and right after a kick, a tx-complete interrupt or a flush a
      waiting frame is being sent: no interleaving stalls the transmitter. */
  lemma NoLossNoStall(p: Port, m: Mailbox, step: Step)
    requires Inv(p, m) && Enabled(p, m, step)
    ensures step.Put? ==> |p.ring| < p.capacity && Do(p, m, step).0.ring == p.ring + [step.frame]
    ensures step.TxMsg? || step.TxDone? || step.Flush? ==>
      var q := Do(p, m, step); q.0.ring != [] ==> q.0.txPending && q.1 == Some(q.0.ring[0])
  {}

  // ---------- Whole runs ----------

  /** The state after a run, if every step of it could happen. */
  ghost predicate Reaches(p: Port, m: Mailbox, run: seq<Step>, q: Port, n: Mailbox)
    decreases |run|
  {
    if run == [] then q == p && n == m
    else Enabled(p, m, run[0]) && Reaches(Do(p, m, run[0]).0, Do(p, m, run[0]).1, run[1..], q, n)
  }

  lemma {:induction false} RunKeepsInv(p: Port, m: Mailbox, run: seq<Step>, q: Port, n: Mailbox)
    requires Inv(p, m) && Reaches(p, m, run, q, n)
    ensures Inv(q, n)
    decreases |run|
  {
    if run != [] {
      StepKeepsInv(p, m, run[0]);
      RunKeepsInv(Do(p, m, run[0]).0, Do(p, m, run[0]).1, run[1..], q, n);
    }
  }

  function CountOf(run: seq<Step>, kind: Step -> bool): nat {
    if run == [] then 0 else (if kind(run[0]) then 1 else 0) + CountOf(run[1..], kind)
  }

  predicate IsPend(step: Step) { step.Pend? }

  predicate IsPut(step: Step) { step.Put? }

  predicate IsTxMsg(step: Step) { step.TxMsg? }

  /** Each write call goes through its three steps once: those that have a slot but have not put their frame
      are `writers`, and those that have put it but not kicked are `kicks`. */
  lemma {:induction false} CallsCounted(p: Port, m: Mailbox, run: seq<Step>, q: Port, n: Mailbox)
    requires Reaches(p, m, run, q, n)
    ensures q.writers + CountOf(run, IsPut) == p.writers + CountOf(run, IsPend)
    ensures q.kicks + CountOf(run, IsTxMsg) == p.kicks + CountOf(run, IsPut)
    decreases |run|
  {
    if run != [] {
      CallsCounted(Do(p, m, run[0]).0, Do(p, m, run[0]).1, run[1..], q, n);
    }
  }

  predicate NoDrops(fates: seq<Fate>) {
    forall i :: 0 <= i < |fates| ==> fates[i].Sent?
  }

  lemma {:induction false} HandedWithoutDrops(fates: seq<Fate>)
    requires NoDrops(fates)
    ensures HandedOf(fates) == FramesOf(fates)
  {
    if fates != [] {
      HandedWithoutDrops(fates[..|fates| - 1]);
    }
  }

  /** Over every interleaving from an opened handle: the written frames are the frames that left the
      ring and those still in it, in order; the frames handed to the hardware are the written ones in
      order, without those a flush dropped before their turn; without a flush they are simply the
      first so many written; when no write call is about to kick, a waiting frame is being sent; and every
      slot is free, in the ring, or with a write call that has not put its frame yet. */
  lemma FirstInFirstOut(capacity: nat, run: seq<Step>, q: Port, n: Mailbox)
    requires Reaches(Fresh(capacity), None, run, q, n)
    ensures q.written == FramesOf(q.fates) + q.ring
    ensures q.txPending ==> q.ring != [] && n == Some(q.ring[0])
    ensures q.handed == HandedOf(q.fates) + if q.txPending && q.ring != [] then [q.ring[0]] else []
    ensures q.kicks == 0 && q.ring != [] ==> q.txPending
    ensures NoDrops(q.fates) ==> q.handed <= q.written
    ensures q.freeSlots + |q.ring| + q.writers == capacity == q.capacity
    ensures q.writers + CountOf(run, IsPut) == CountOf(run, IsPend)
    ensures q.kicks + CountOf(run, IsTxMsg) == CountOf(run, IsPut)
  {
    CallsCounted(Fresh(capacity), None, run, q, n);
    RunKeepsInv(Fresh(capacity), None, run, q, n);
    CapacityKept(Fresh(capacity), None, run, q, n);
    if NoDrops(q.fates) {
      HandedWithoutDrops(q.fates);
    }
  }

  lemma {:induction false} CapacityKept(p: Port, m: Mailbox, run: seq<Step>, q: Port, n: Mailbox)
    requires Reaches(p, m, run, q, n)
    ensures q.capacity == p.capacity
    decreases |run|
  {
    if run != [] {
      CapacityKept(Do(p, m, run[0]).0, Do(p, m, run[0]).1, run[1..], q, n);
    }
  }
}
