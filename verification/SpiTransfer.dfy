/**
The data path of the SPI driver: the polling loop, and the transfer by DMA in chunks of at most 1024
elements, where the transmit and receive channels advance independently.
 */
module SpiTransfer {
  import opened Integers

  const MAX_DMA_TRANSFER_AMOUNT: nat := 1024

  /** A transaction: how many elements of `width` bytes, from address `tx` and to address `rx`, either
      of which may be 0 for NULL; then the scratch word stands in for it, holding `fill`. */
  datatype Transfer = Transfer(count: nat, width: nat, tx: nat, rx: nat, scratch: nat, fill: nat)

  /** The memory as bytes, and the words put on the wire so far. */
  datatype Link = Link(mem: seq<nat>, sent: seq<nat>)

  /** What the other side answers to the last of the words it was sent. */
  type Slave = seq<nat> -> nat

  // ---------- Memory ----------

  predicate Within(mem: seq<nat>, a: nat, width: nat) {
    (width == 1 || width == 2) && a + width <= |mem|
  }

  /** The little-endian word at an address. */
  function Load(mem: seq<nat>, a: nat, width: nat): nat
    requires Within(mem, a, width)
  {
    if width == 1 then mem[a] else mem[a] + 256 * mem[a + 1]
  }

  /** A store keeps the low `width` bytes of the word. */
  function Store(mem: seq<nat>, a: nat, width: nat, word: nat): (r: seq<nat>)
    requires Within(mem, a, width)
    ensures |r| == |mem|
  {
    if width == 1 then mem[a := word % 256] else mem[a := word % 256][a + 1 := word / 256 % 256]
  }

  predicate Apart(a: nat, n: nat, b: nat, m: nat) {
    a + n <= b || b + m <= a
  }

  lemma LoadAfterStore(mem: seq<nat>, a: nat, width: nat, word: nat, b: nat, n: nat)
    requires Within(mem, a, width) && Within(mem, b, n) && Apart(a, width, b, n)
    ensures Load(Store(mem, a, width, word), b, n) == Load(mem, b, n)
  {}

  /** The two bytes at an address are those of a word. */
  predicate Holds(mem: seq<nat>, a: nat, word: nat)
    requires Within(mem, a, 2)
  {
    mem[a] == word % 256 && mem[a + 1] == word / 256 % 256
  }

  lemma StoreHolds(mem: seq<nat>, a: nat, word: nat)
    requires Within(mem, a, 2)
    ensures Holds(Store(mem, a, 2, word), a, word)
    ensures Holds(mem, a, word) ==> Store(mem, a, 2, word) == mem
  {}

  lemma StoreKeepsHolds(mem: seq<nat>, a: nat, width: nat, word: nat, b: nat, held: nat)
    requires Within(mem, a, width) && Within(mem, b, 2) && Apart(a, width, b, 2)
    ensures Holds(Store(mem, a, width, word), b, held) == Holds(mem, b, held)
  {}

  // ---------- Addresses ----------

  /** What the driver takes for granted: the buffers and the scratch word lie in memory, the scratch
      word apart from the buffers; and what `SPIMSP432E4DMA_transfer` checks: elements to move, a
      buffer, and alignment. */
  predicate Proper(t: Transfer, size: nat) {
    && (t.width == 1 || t.width == 2)
    && t.count > 0 && (t.tx != 0 || t.rx != 0)
    && t.tx % t.width == 0 && t.rx % t.width == 0
    && t.tx + t.count * t.width <= size && t.rx + t.count * t.width <= size && t.scratch + 2 <= size
    && (t.tx != 0 ==> Apart(t.tx, t.count * t.width, t.scratch, 2))
    && (t.rx != 0 ==> Apart(t.rx, t.count * t.width, t.scratch, 2))
  }

  function TxAt(t: Transfer, i: nat): nat { if t.tx != 0 then t.tx + i * t.width else t.scratch }

  function RxAt(t: Transfer, i: nat): nat { if t.rx != 0 then t.rx + i * t.width else t.scratch }

  lemma Addresses(t: Transfer, mem: seq<nat>, i: nat)
    requires Proper(t, |mem|) && i < t.count
    ensures Within(mem, TxAt(t, i), t.width) && Within(mem, RxAt(t, i), t.width) && Within(mem, t.scratch, 2)
    ensures t.rx != 0 ==> Apart(RxAt(t, i), t.width, t.scratch, 2)
    ensures t.tx != 0 ==> Apart(t.scratch, t.width, TxAt(t, i), t.width)
  {
    assert (i + 1) * t.width <= t.count * t.width;
  }

  // ---------- Polling ----------

  /** Send element `i` and store the answer. */
  function Exchange(t: Transfer, slave: Slave, l: Link, i: nat): (r: Link)
    requires Proper(t, |l.mem|) && i < t.count
    ensures |r.mem| == |l.mem|
  {
    Addresses(t, l.mem, i);
    var sent := l.sent + [Load(l.mem, TxAt(t, i), t.width)];
    Link(Store(l.mem, RxAt(t, i), t.width, slave(sent)), sent)
  }

  /** The first `n` elements one after the other. */
  function Run(t: Transfer, slave: Slave, l: Link, n: nat): (r: Link)
    requires Proper(t, |l.mem|) && n <= t.count
    ensures |r.mem| == |l.mem|
  {
    if n == 0 then l else Exchange(t, slave, Run(t, slave, l, n - 1), n - 1)
  }

  /** Without a buffer to send from, the scratch word is filled. */
  function Prepared(t: Transfer, mem: seq<nat>): (r: seq<nat>)
    requires Proper(t, |mem|)
    ensures |r| == |mem|
  {
    if t.tx == 0 then Store(mem, t.scratch, 2, t.fill) else mem
  }

  /** What the polling loop does to memory and wire. */
  function Polled(t: Transfer, slave: Slave, mem: seq<nat>): Link
    requires Proper(t, |mem|)
  {
    Run(t, slave, Link(Prepared(t, mem), []), t.count)
  }

  lemma {:induction false} RunSends(t: Transfer, slave: Slave, l: Link, m: nat, n: nat)
    requires Proper(t, |l.mem|) && m <= n <= t.count
    ensures |Run(t, slave, l, n).sent| == |l.sent| + n
    ensures Run(t, slave, l, n).sent[..|l.sent| + m] == Run(t, slave, l, m).sent
  {
    hide Load, Store, Proper, TxAt, RxAt;
    if n > 0 {
      RunSends(t, slave, l, if m < n then m else n - 1, n - 1);
    }
  }

  /** The scratch word keeps its filling while elements are received into a buffer. */
  lemma {:induction false} ScratchKept(t: Transfer, slave: Slave, l: Link, n: nat)
    requires Proper(t, |l.mem|) && n <= t.count && t.tx == 0
    requires Holds(l.mem, t.scratch, t.fill)
    ensures Holds(Run(t, slave, l, n).mem, t.scratch, t.fill)
  {
    hide Load, Store, Holds;
    if n > 0 {
      ScratchKept(t, slave, l, n - 1);
      var before := Run(t, slave, l, n - 1);
      Addresses(t, before.mem, n - 1);
      var word := slave(before.sent + [Load(before.mem, TxAt(t, n - 1), t.width)]);
      StoreKeepsHolds(before.mem, RxAt(t, n - 1), t.width, word, t.scratch, t.fill);
    }
  }

  // ---------- DMA ----------

  /** A DMA transfer under way: elements received, the driver's two amounts, and whether the last
      interrupt has come. The elements sent are those on the wire. */
  datatype Dma = Dma(link: Link, got: nat, amtDataXferred: nat, currentXferAmt: nat, done: bool)

  datatype Event = TxMove | RxMove | ChunkDone

  /** The size of the next chunk, with so many elements left. */
  function ChunkOf(left: nat): nat { Min(left, MAX_DMA_TRANSFER_AMOUNT) }

  function ChunkAmount(count: nat, amt: nat): nat
    requires amt <= count
  {
    ChunkOf(count - amt)
  }

  /** `configDMA`: the next chunk, from the given amount on. */
  function ConfigDma(t: Transfer, d: Dma): (r: Dma)
    requires Proper(t, |d.link.mem|) && d.amtDataXferred <= t.count
    ensures |r.link.mem| == |d.link.mem|
  {
    d.(currentXferAmt := ChunkAmount(t.count, d.amtDataXferred), link := d.link.(mem := Prepared(t, d.link.mem)))
  }

  function Started(t: Transfer, mem: seq<nat>): (r: Dma)
    requires Proper(t, |mem|)
    ensures |r.link.mem| == |mem|
  {
    ConfigDma(t, Dma(Link(mem, []), 0, 0, 0, false))
  }

  /** `getDmaRemainingXfers`: one more than the receive channel's size field, which holds the elements left
      less one, and stays 0 once the chunk is through. */
  function Remaining(d: Dma): nat
    requires d.amtDataXferred <= d.got <= d.amtDataXferred + d.currentXferAmt
  {
    var field := Max(0, d.amtDataXferred + d.currentXferAmt - d.got - 1);
    field + 1
  }

  /** The transmit channel may be `lead` elements ahead of the receive channel, as far as the
      peripheral's queues let it; the interrupt comes when the receive channel ends its chunk. */
  predicate Enabled(t: Transfer, lead: nat, d: Dma, e: Event) {
    match e
    case TxMove => |d.link.sent| < d.amtDataXferred + d.currentXferAmt && |d.link.sent| < d.got + lead
    case RxMove => d.got < |d.link.sent|
    case ChunkDone => !d.done && d.got == d.amtDataXferred + d.currentXferAmt
  }

  /** The bookkeeping of a run: chunks start at multiples of 1024 and end at the next one or at the
      end; nothing is sent or received outside of the current chunk. */
  predicate Tracked(t: Transfer, d: Dma) {
    && Proper(t, |d.link.mem|)
    && d.amtDataXferred < t.count && d.amtDataXferred % MAX_DMA_TRANSFER_AMOUNT == 0
    && d.currentXferAmt == ChunkAmount(t.count, d.amtDataXferred)
    && d.amtDataXferred <= d.got <= |d.link.sent| <= d.amtDataXferred + d.currentXferAmt
    && (d.done ==> d.got == t.count)
  }

  function Next(t: Transfer, slave: Slave, lead: nat, d: Dma, e: Event): (r: Dma)
    requires Tracked(t, d) && Enabled(t, lead, d, e)
    ensures Tracked(t, r)
  {
    var l := d.link;
    match e
    case TxMove =>
      Addresses(t, l.mem, |l.sent|);
      d.(link := l.(sent := l.sent + [Load(l.mem, TxAt(t, |l.sent|), t.width)]))
    case RxMove =>
      Addresses(t, l.mem, d.got);
      d.(link := l.(mem := Store(l.mem, RxAt(t, d.got), t.width, slave(l.sent[..d.got + 1]))), got := d.got + 1)
    case ChunkDone =>
      if t.count - d.amtDataXferred > MAX_DMA_TRANSFER_AMOUNT then
        ConfigDma(t, d.(amtDataXferred := d.amtDataXferred + d.currentXferAmt))
      else
        d.(done := true)
  }

  /** A run of the transfer: what happens, in order, as far as it can. */
  ghost predicate Reaches(t: Transfer, slave: Slave, lead: nat, d: Dma, run: seq<Event>, e: Dma)
    requires Tracked(t, d)
    decreases |run|
  {
    if run == [] then e == d
    else Enabled(t, lead, d, run[0]) && Reaches(t, slave, lead, Next(t, slave, lead, d, run[0]), run[1..], e)
  }

  // ---------- When the two agree ----------

  /** No element is overwritten by an earlier one's answer before it can have been sent. */
  ghost predicate HazardFree(t: Transfer, lead: nat) {
    forall i: nat, j: nat :: i < j < t.count && j < i + lead && j - i < MAX_DMA_TRANSFER_AMOUNT ==>
      Apart(RxAt(t, i), t.width, TxAt(t, j), t.width)
  }

  /** Stores of the elements `m..n` do not change element `n`. */
  lemma {:induction false} ElementKept(t: Transfer, slave: Slave, lead: nat, l: Link, m: nat, n: nat, k: nat)
    requires Proper(t, |l.mem|) && HazardFree(t, lead)
    requires m <= n <= k < t.count && k - m < lead && k - m < MAX_DMA_TRANSFER_AMOUNT
    ensures Within(l.mem, TxAt(t, k), t.width)
    ensures Load(Run(t, slave, l, n).mem, TxAt(t, k), t.width) == Load(Run(t, slave, l, m).mem, TxAt(t, k), t.width)
  {
    hide Load, Store, TxAt, RxAt, Proper;
    Addresses(t, l.mem, k);
    if m < n {
      ElementKept(t, slave, lead, l, m, n - 1, k);
      var before := Run(t, slave, l, n - 1);
      Addresses(t, before.mem, n - 1);
      var word := slave(before.sent + [Load(before.mem, TxAt(t, n - 1), t.width)]);
      LoadAfterStore(before.mem, RxAt(t, n - 1), t.width, word, TxAt(t, k), t.width);
    }
  }

  /** The elements sent and the memory are each where the polling loop had them. */
  predicate InStep(t: Transfer, slave: Slave, start: Link, d: Dma)
    requires Proper(t, |start.mem|) && Tracked(t, d)
  {
    && |start.mem| == |d.link.mem|
    && d.link.sent == Run(t, slave, start, |d.link.sent|).sent
    && d.link.mem == Run(t, slave, start, d.got).mem
  }

  predicate IsStart(t: Transfer, start: Link) {
    && Proper(t, |start.mem|) && start.sent == []
    && (t.tx == 0 ==> Holds(start.mem, t.scratch, t.fill))
  }

  lemma TxKeepsStep(t: Transfer, slave: Slave, lead: nat, start: Link, d: Dma)
    requires Tracked(t, d) && IsStart(t, start) && InStep(t, slave, start, d) && HazardFree(t, lead)
    requires Enabled(t, lead, d, TxMove)
    ensures InStep(t, slave, start, Next(t, slave, lead, d, TxMove))
  {
    hide Load, Store, TxAt, RxAt, Proper, Holds, HazardFree;
    var k := |d.link.sent|;
    Addresses(t, start.mem, k);
    ElementKept(t, slave, lead, start, d.got, k, k);
  }

  lemma RxKeepsStep(t: Transfer, slave: Slave, lead: nat, start: Link, d: Dma)
    requires Tracked(t, d) && IsStart(t, start) && InStep(t, slave, start, d)
    requires Enabled(t, lead, d, RxMove)
    ensures InStep(t, slave, start, Next(t, slave, lead, d, RxMove))
  {
    hide Load, Store, TxAt, RxAt, Proper, Holds;
    Addresses(t, start.mem, d.got);
    RunSends(t, slave, start, d.got + 1, |d.link.sent|);
  }

  lemma InterruptKeepsStep(t: Transfer, slave: Slave, lead: nat, start: Link, d: Dma)
    requires Tracked(t, d) && IsStart(t, start) && InStep(t, slave, start, d)
    requires Enabled(t, lead, d, ChunkDone)
    ensures InStep(t, slave, start, Next(t, slave, lead, d, ChunkDone))
  {
    hide Load, Store, Holds, Run, TxAt, RxAt;
    if t.tx == 0 {
      ScratchKept(t, slave, start, d.got);
      StoreHolds(d.link.mem, t.scratch, t.fill);
    }
  }

  lemma {:induction false} RunKeepsStep(
      t: Transfer, slave: Slave, lead: nat, start: Link, d: Dma, run: seq<Event>, e: Dma)
    requires Tracked(t, d) && IsStart(t, start) && InStep(t, slave, start, d) && HazardFree(t, lead)
    requires Reaches(t, slave, lead, d, run, e)
    ensures Tracked(t, e) && InStep(t, slave, start, e)
    decreases |run|
  {
    hide InStep, Tracked, Enabled, Next, HazardFree;
    if run != [] {
      var next := Next(t, slave, lead, d, run[0]);
      match run[0] {
        case TxMove => TxKeepsStep(t, slave, lead, start, d);
        case RxMove => RxKeepsStep(t, slave, lead, start, d);
        case ChunkDone => InterruptKeepsStep(t, slave, lead, start, d);
      }
      RunKeepsStep(t, slave, lead, start, next, run[1..], e);
    }
  }

  lemma StartInStep(t: Transfer, slave: Slave, mem: seq<nat>)
    requires Proper(t, |mem|)
    ensures IsStart(t, Link(Prepared(t, mem), [])) && Tracked(t, Started(t, mem))
    ensures InStep(t, slave, Link(Prepared(t, mem), []), Started(t, mem))
  {
    hide Store, Holds;
    StoreHolds(mem, t.scratch, t.fill);
  }

  /** A DMA transfer that ends, however its channels and interrupts interleaved, has sent the words
      and left the memory that the polling loop would have. */
  lemma DmaIsPolling(t: Transfer, slave: Slave, lead: nat, mem: seq<nat>, run: seq<Event>, e: Dma)
    requires Proper(t, |mem|) && HazardFree(t, lead)
    requires Tracked(t, Started(t, mem)) && Reaches(t, slave, lead, Started(t, mem), run, e)
    ensures e.done ==> e.link == Polled(t, slave, mem)
  {
    hide HazardFree, Reaches, Holds, Store, Load;
    StartInStep(t, slave, mem);
    RunKeepsStep(t, slave, lead, Link(Prepared(t, mem), []), Started(t, mem), run, e);
  }

  // ---------- Ending, and the chunks ----------

  function Chunks(count: nat): nat { (count + MAX_DMA_TRANSFER_AMOUNT - 1) / MAX_DMA_TRANSFER_AMOUNT }

  /** Interrupts so far. */
  function Interrupts(t: Transfer, d: Dma): nat
    requires Tracked(t, d)
  {
    d.amtDataXferred / MAX_DMA_TRANSFER_AMOUNT + if d.done then 1 else 0
  }

  function Progress(t: Transfer, d: Dma): nat
    requires Tracked(t, d)
  {
    |d.link.sent| + d.got + Interrupts(t, d)
  }

  lemma NextProgresses(t: Transfer, slave: Slave, lead: nat, d: Dma, e: Event)
    requires Tracked(t, d) && Enabled(t, lead, d, e)
    ensures Progress(t, Next(t, slave, lead, d, e)) == Progress(t, d) + 1
  {
    hide Load, Store, TxAt, RxAt;
    if e == ChunkDone && t.count - d.amtDataXferred > MAX_DMA_TRANSFER_AMOUNT {
      assert (d.amtDataXferred + MAX_DMA_TRANSFER_AMOUNT) / MAX_DMA_TRANSFER_AMOUNT
        == d.amtDataXferred / MAX_DMA_TRANSFER_AMOUNT + 1;
    }
  }

  lemma {:induction false} RunProgresses(t: Transfer, slave: Slave, lead: nat, d: Dma, run: seq<Event>, e: Dma)
    requires Tracked(t, d) && Reaches(t, slave, lead, d, run, e)
    ensures Tracked(t, e) && Progress(t, e) == Progress(t, d) + |run|
    decreases |run|
  {
    hide Tracked, Progress, Enabled, Next;
    if run != [] {
      NextProgresses(t, slave, lead, d, run[0]);
      RunProgresses(t, slave, lead, Next(t, slave, lead, d, run[0]), run[1..], e);
    }
  }

  /** Every run ends: it is stuck only when the transfer is done, and then it has sent and received
      each of the `count` elements once and taken one interrupt for each of the
      ceil(count / 1024) chunks. */
  lemma DmaEnds(t: Transfer, slave: Slave, lead: nat, mem: seq<nat>, run: seq<Event>, e: Dma)
    requires Proper(t, |mem|) && lead > 0
    requires Tracked(t, Started(t, mem)) && Reaches(t, slave, lead, Started(t, mem), run, e)
    ensures Tracked(t, e) && |run| <= 2 * t.count + Chunks(t.count)
    ensures |run| == 2 * t.count + Chunks(t.count) <==> e.done
    ensures e.done <==> forall event :: !Enabled(t, lead, e, event)
    ensures e.done ==> Interrupts(t, e) == Chunks(t.count) && |e.link.sent| == e.got == t.count
  {
    hide Reaches, Proper;
    RunProgresses(t, slave, lead, Started(t, mem), run, e);
    assert Progress(t, Started(t, mem)) == 0;
    if e.done {
      assert t.count - e.amtDataXferred <= MAX_DMA_TRANSFER_AMOUNT;
    } else if e.got == e.amtDataXferred + e.currentXferAmt {
      assert Enabled(t, lead, e, ChunkDone);
    } else if e.got < |e.link.sent| {
      assert Enabled(t, lead, e, RxMove);
    } else {
      assert Enabled(t, lead, e, TxMove);
    }
  }
}
