/**
Exactly when a DMA transfer is a polling transfer: a receive buffer that lies a little above the
transmit buffer is overwritten too early by the polling loop and in time by the DMA.
 */
module SpiOverlap {
  import opened Integers
  import opened SpiTransfer

  /** How far, in elements, the transmit channel can read ahead. */
  function Reach(t: Transfer, lead: nat): nat {
    Min(t.count, Min(lead, MAX_DMA_TRANSFER_AMOUNT))
  }

  /** A condition on the two addresses alone: the receive buffer starts inside of what the transmit
      channel may have read before the first answer is stored. */
  predicate StartsInside(t: Transfer, lead: nat) {
    t.tx != 0 && t.tx < t.rx < t.tx + Reach(t, lead) * t.width
  }

  lemma ScaledBounds(a: nat, b: nat, w: nat)
    requires a <= b
    ensures a * w <= b * w
  {}

  lemma HazardFreeIff(t: Transfer, lead: nat, size: nat)
    requires Proper(t, size)
    ensures HazardFree(t, lead) <==> !StartsInside(t, lead)
  {
    if StartsInside(t, lead) {
      var k := (t.rx - t.tx) / t.width;
      assert k * t.width == t.rx - t.tx by { Divides(t.tx, t.rx, t.width); }
      assert 0 < k < Reach(t, lead);
      assert RxAt(t, 0) == TxAt(t, k);
    } else {
      forall i: nat, j: nat | i < j < t.count && j < i + lead && j - i < MAX_DMA_TRANSFER_AMOUNT
        ensures Apart(RxAt(t, i), t.width, TxAt(t, j), t.width)
      {
        NotInside(t, lead, size, i, j);
      }
    }
  }

  lemma Divides(a: nat, b: nat, w: nat)
    requires (w == 1 || w == 2) && a % w == 0 && b % w == 0 && a <= b
    ensures (b - a) / w * w == b - a
  {}

  lemma NotInside(t: Transfer, lead: nat, size: nat, i: nat, j: nat)
    requires Proper(t, size) && !StartsInside(t, lead)
    requires i < j < t.count && j < i + lead && j - i < MAX_DMA_TRANSFER_AMOUNT
    ensures Apart(RxAt(t, i), t.width, TxAt(t, j), t.width)
  {
    if t.tx == 0 {
      ScaledBounds(i + 1, t.count, t.width);
    } else if t.rx == 0 {
      ScaledBounds(j + 1, t.count, t.width);
    } else if t.rx <= t.tx {
      ScaledBounds(i + 1, j, t.width);
    } else {
      ScaledBounds((j - i) + 1, Reach(t, lead), t.width);
    }
  }

  // ---------- Runs can be finished ----------

  /** Every transfer under way has a run that ends it, and keeps what has been sent. */
  lemma {:induction false} CanFinish(t: Transfer, slave: Slave, lead: nat, d: Dma) returns (run: seq<Event>, e: Dma)
    requires Tracked(t, d) && lead > 0
    ensures Reaches(t, slave, lead, d, run, e) && Tracked(t, e) && e.done
    ensures d.link.sent <= e.link.sent
    decreases Progress(t, d) <= 2 * t.count + Chunks(t.count), 2 * t.count + Chunks(t.count) - Progress(t, d)
  {
    hide Load, Store, TxAt, RxAt, Proper, Prepared;
    if d.done {
      return [], d;
    }
    var event;
    if d.got == d.amtDataXferred + d.currentXferAmt {
      event := ChunkDone;
    } else if d.got < |d.link.sent| {
      event := RxMove;
    } else {
      event := TxMove;
    }
    NextProgresses(t, slave, lead, d, event);
    var next := Next(t, slave, lead, d, event);
    ProgressBound(t, next);
    var rest, last := CanFinish(t, slave, lead, next);
    run, e := [event] + rest, last;
    assert run[1..] == rest;
  }

  lemma ProgressBound(t: Transfer, d: Dma)
    requires Tracked(t, d)
    ensures Progress(t, d) <= 2 * t.count + Chunks(t.count)
  {}

  lemma {:induction false} RunsCompose(
      t: Transfer, slave: Slave, lead: nat, d: Dma, first: seq<Event>, m: Dma, second: seq<Event>, e: Dma)
    requires Tracked(t, d) && Tracked(t, m)
    requires Reaches(t, slave, lead, d, first, m) && Reaches(t, slave, lead, m, second, e)
    ensures Reaches(t, slave, lead, d, first + second, e)
    decreases |first|
  {
    hide Next, Enabled, Tracked;
    if first == [] {
      assert first + second == second;
    } else {
      RunsCompose(t, slave, lead, Next(t, slave, lead, d, first[0]), first[1..], m, second, e);
      assert (first + second)[1..] == first[1..] + second;
    }
  }

  // ---------- A run that differs ----------

  function Zeros(n: nat): (r: seq<nat>)
    ensures |r| == n && forall i :: 0 <= i < n ==> r[i] == 0
  {
    if n == 0 then [] else Zeros(n - 1) + [0]
  }

  /** A slave that always answers 1. */
  function AlwaysOne(sent: seq<nat>): nat { 1 }

  /** `n` transmit moves before any other. */
  lemma {:induction false} SendAhead(t: Transfer, lead: nat, size: nat, n: nat) returns (run: seq<Event>, d: Dma)
    requires Proper(t, size) && t.tx != 0 && n <= Reach(t, lead)
    ensures Tracked(t, Started(t, Zeros(size))) && Tracked(t, d)
    ensures Reaches(t, AlwaysOne, lead, Started(t, Zeros(size)), run, d)
    ensures d == Started(t, Zeros(size)).(link := Link(Zeros(size), Zeros(n)))
  {
    hide Reaches;
    if n == 0 {
      run, d := [], Started(t, Zeros(size));
      NoEvents(t, lead, d);
    } else {
      var before, m := SendAhead(t, lead, size, n - 1);
      Addresses(t, m.link.mem, n - 1);
      assert Enabled(t, lead, m, TxMove);
      d := Next(t, AlwaysOne, lead, m, TxMove);
      OneEvent(t, lead, m, TxMove, d);
      run := before + [TxMove];
      RunsCompose(t, AlwaysOne, lead, Started(t, Zeros(size)), before, m, [TxMove], d);
    }
  }

  lemma NoEvents(t: Transfer, lead: nat, d: Dma)
    requires Tracked(t, d)
    ensures Reaches(t, AlwaysOne, lead, d, [], d)
  {}

  lemma OneEvent(t: Transfer, lead: nat, d: Dma, event: Event, e: Dma)
    requires Tracked(t, d) && Enabled(t, lead, d, event) && e == Next(t, AlwaysOne, lead, d, event)
    ensures Reaches(t, AlwaysOne, lead, d, [event], e)
  {
    hide Next, Tracked, Enabled;
    NoEvents(t, lead, e);
  }

  lemma StoredOne(mem: seq<nat>, a: nat, width: nat)
    requires Within(mem, a, width)
    ensures Load(Store(mem, a, width, 1), a, width) == 1
  {}

  /** The polling loop finds its first answer at the start of the receive buffer ever after. */
  lemma {:induction false} FirstAnswerStays(t: Transfer, l: Link, n: nat)
    requires Proper(t, |l.mem|) && t.rx != 0 && 0 < n <= t.count
    ensures Within(Run(t, AlwaysOne, l, n).mem, t.rx, t.width)
    ensures Load(Run(t, AlwaysOne, l, n).mem, t.rx, t.width) == 1
  {
    hide Load, Store, Proper;
    var before := Run(t, AlwaysOne, l, n - 1);
    Addresses(t, before.mem, 0);
    Addresses(t, before.mem, n - 1);
    if n == 1 {
      StoredOne(before.mem, RxAt(t, 0), t.width);
    } else {
      FirstAnswerStays(t, l, n - 1);
      ScaledBounds(1, n - 1, t.width);
      LoadAfterStore(before.mem, RxAt(t, n - 1), t.width, 1, t.rx, t.width);
    }
  }

  lemma {:induction false} SentWord(t: Transfer, slave: Slave, l: Link, k: nat, n: nat)
    requires Proper(t, |l.mem|) && k < n <= t.count && l.sent == []
    ensures Within(Run(t, slave, l, k).mem, TxAt(t, k), t.width) && |Run(t, slave, l, n).sent| == n
    ensures Run(t, slave, l, n).sent[k] == Load(Run(t, slave, l, k).mem, TxAt(t, k), t.width)
  {
    hide Load, Store, Proper, TxAt, RxAt;
    Addresses(t, Run(t, slave, l, k).mem, k);
    RunSends(t, slave, l, k, k);
    RunSends(t, slave, l, k + 1, n);
    var at := Run(t, slave, l, k + 1).sent;
    assert at[k] == Run(t, slave, l, n).sent[k];
  }

  /** With the receive buffer `k` elements above the transmit buffer, the polling loop sends its first
      answer again as element `k`. */
  lemma PollingSendsAnswer(t: Transfer, size: nat, k: nat)
    requires Proper(t, size) && t.tx != 0 && t.rx == t.tx + k * t.width && 0 < k < t.count
    ensures |Polled(t, AlwaysOne, Zeros(size)).sent| == t.count
    ensures Polled(t, AlwaysOne, Zeros(size)).sent[k] == 1
  {
    hide Load, Store, Run;
    var l := Link(Zeros(size), []);
    FirstAnswerStays(t, l, k);
    SentWord(t, AlwaysOne, l, k, t.count);
  }

  /** When the receive buffer starts inside, some slave and some timing make the DMA send another
      word than the polling loop. */
  lemma Diverges(t: Transfer, lead: nat, size: nat) returns (run: seq<Event>, e: Dma)
    requires Proper(t, size) && StartsInside(t, lead)
    ensures Tracked(t, Started(t, Zeros(size)))
    ensures Reaches(t, AlwaysOne, lead, Started(t, Zeros(size)), run, e) && e.done
    ensures e.link.sent != Polled(t, AlwaysOne, Zeros(size)).sent
  {
    hide Load, Store, Reaches, Next, Enabled, Polled, Run;
    var k := (t.rx - t.tx) / t.width;
    assert k * t.width == t.rx - t.tx by { Divides(t.tx, t.rx, t.width); }
    PollingSendsAnswer(t, size, k);
    var first, m := SendAhead(t, lead, size, k + 1);
    var second, last := CanFinish(t, AlwaysOne, lead, m);
    RunsCompose(t, AlwaysOne, lead, Started(t, Zeros(size)), first, m, second, last);
    run, e := first + second, last;
    assert m.link.sent[k] == 0;
  }

  /** Whatever the other side and the timing, a finished DMA transfer is the polling transfer. */
  ghost predicate Refines(t: Transfer, lead: nat, size: nat)
    requires Proper(t, size)
  {
    forall slave: Slave, mem: seq<nat>, run: seq<Event>, e: Dma ::
      |mem| == size && Tracked(t, Started(t, mem)) && Reaches(t, slave, lead, Started(t, mem), run, e) && e.done ==>
        e.link == Polled(t, slave, mem)
  }

  /** The exact condition, checkable on the addresses before the transfer. */
  lemma RefinesIff(t: Transfer, lead: nat, size: nat)
    requires Proper(t, size)
    ensures Refines(t, lead, size) <==> !StartsInside(t, lead)
  {
    hide StartsInside, HazardFree, Polled, Reaches, Started, Tracked;
    if StartsInside(t, lead) {
      var run, e := Diverges(t, lead, size);
    } else {
      HazardFreeIff(t, lead, size);
      forall slave: Slave, mem: seq<nat>, run: seq<Event>, e: Dma | |mem| == size &&
        Tracked(t, Started(t, mem)) && Reaches(t, slave, lead, Started(t, mem), run, e) && e.done
        ensures e.link == Polled(t, slave, mem)
      {
        DmaIsPolling(t, slave, lead, mem, run, e);
      }
    }
  }
}
