/**
The polling loop as written, and what a transfer is in bytes: which words go out, which bytes come in, and
which stay as they were.
 */
module SpiPolling {
  import opened SpiTransfer
  import SpiOverlap

  // ---------- Bytes ----------

  /** The buffers, as far as there are two, do not meet. */
  predicate BuffersApart(t: Transfer) {
    t.tx != 0 && t.rx != 0 ==> Apart(t.tx, t.count * t.width, t.rx, t.count * t.width)
  }

  /** Whether a transfer may write to an address: inside of the receive buffer, or in the scratch word if
      that stands in for a buffer. */
  predicate MayWrite(t: Transfer, a: nat) {
    || (t.rx != 0 && t.rx <= a < t.rx + t.count * t.width)
    || ((t.tx == 0 || t.rx == 0) && t.scratch <= a < t.scratch + 2)
  }

  /** A transfer in bytes: element `k` sent is the byte or the little-endian pair at its place in the
      transmit buffer, or else the low bytes of the filling; where it is received to stand the low bytes of
      the answer to the first `k + 1` words; and everything else is as it was. */
  ghost predicate InBytes(t: Transfer, slave: Slave, before: seq<nat>, after: seq<nat>, sent: seq<nat>) {
    && |after| == |before| && |sent| == t.count
    && t.tx + t.count * t.width <= |before| && t.rx + t.count * t.width <= |before|
    && (forall k: nat :: k < t.count ==> sent[k] == Sent(t, before, k))
    && (t.rx != 0 ==> forall k: nat :: k < t.count ==> Received(t, slave, after, sent, k))
    && (forall a: nat :: a < |before| && !MayWrite(t, a) ==> after[a] == before[a])
  }

  function Sent(t: Transfer, mem: seq<nat>, k: nat): nat
    requires k < t.count && t.tx + t.count * t.width <= |mem|
  {
    if t.tx == 0 then (if t.width == 1 then t.fill % 256 else t.fill % 0x1_0000)
    else if t.width == 1 then mem[t.tx + k]
    else if t.width == 2 then mem[t.tx + 2 * k] + 256 * mem[t.tx + 2 * k + 1]
    else 0
  }

  predicate Received(t: Transfer, slave: Slave, mem: seq<nat>, sent: seq<nat>, k: nat)
    requires k < t.count && k < |sent| && t.rx + t.count * t.width <= |mem|
  {
    var answer := slave(sent[..k + 1]);
    && (t.width == 1 ==> mem[t.rx + k] == answer % 256)
    && (t.width == 2 ==> mem[t.rx + 2 * k] == answer % 256 && mem[t.rx + 2 * k + 1] == answer / 256 % 256)
  }

  lemma StoredBytes(mem: seq<nat>, a: nat, width: nat, word: nat, b: nat)
    requires Within(mem, a, width) && b < |mem|
    ensures var r := Store(mem, a, width, word);
      && (b == a ==> r[b] == word % 256)
      && (width == 2 && b == a + 1 ==> r[b] == word / 256 % 256)
      && (b < a || b >= a + width ==> r[b] == mem[b])
  {}

  /** An address that the elements received do not touch. */
  lemma {:induction false} ByteKept(t: Transfer, slave: Slave, l: Link, m: nat, n: nat, a: nat)
    requires Proper(t, |l.mem|) && m <= n <= t.count && a < |l.mem|
    requires forall k :: m <= k < n ==> a < RxAt(t, k) || a >= RxAt(t, k) + t.width
    ensures Run(t, slave, l, n).mem[a] == Run(t, slave, l, m).mem[a]
  {
    hide Load, Store, TxAt, RxAt, Proper;
    if m < n {
      ByteKept(t, slave, l, m, n - 1, a);
      var before := Run(t, slave, l, n - 1);
      Addresses(t, before.mem, n - 1);
      var word := slave(before.sent + [Load(before.mem, TxAt(t, n - 1), t.width)]);
      StoredBytes(before.mem, RxAt(t, n - 1), t.width, word, a);
    }
  }

  lemma Places(t: Transfer, size: nat, k: nat)
    requires Proper(t, size) && k < t.count
    ensures t.rx != 0 ==> t.rx <= RxAt(t, k) && RxAt(t, k) + t.width <= t.rx + t.count * t.width
    ensures t.tx != 0 ==> t.tx <= TxAt(t, k) && TxAt(t, k) + t.width <= t.tx + t.count * t.width
    ensures t.rx != 0 ==> RxAt(t, k) == t.rx + if t.width == 1 then k else 2 * k
    ensures t.tx != 0 ==> TxAt(t, k) == t.tx + if t.width == 1 then k else 2 * k
    ensures t.rx == 0 ==> RxAt(t, k) == t.scratch
    ensures t.tx == 0 ==> TxAt(t, k) == t.scratch
  {
    SpiOverlap.ScaledBounds(k + 1, t.count, t.width);
  }

  /** An address outside of what a transfer may write. */
  lemma OutsideKept(t: Transfer, slave: Slave, l: Link, n: nat, a: nat)
    requires Proper(t, |l.mem|) && n <= t.count && a < |l.mem| && !MayWrite(t, a)
    ensures Run(t, slave, l, n).mem[a] == l.mem[a]
  {
    forall k | 0 <= k < n ensures a < RxAt(t, k) || a >= RxAt(t, k) + t.width { Places(t, |l.mem|, k); }
    ByteKept(t, slave, l, 0, n, a);
  }

  lemma {:induction false} ReceivedAt(t: Transfer, slave: Slave, l: Link, k: nat, n: nat)
    requires Proper(t, |l.mem|) && k < n <= t.count && t.rx != 0 && l.sent == []
    ensures |Run(t, slave, l, n).sent| == n
    ensures t.rx + t.count * t.width <= |l.mem|
    ensures Received(t, slave, Run(t, slave, l, n).mem, Run(t, slave, l, n).sent, k)
  {
    hide Load, Store, TxAt, RxAt;
    RunSends(t, slave, l, k + 1, n);
    RunSends(t, slave, l, k + 1, k + 1);
    var before, at := Run(t, slave, l, k), Run(t, slave, l, k + 1);
    Addresses(t, before.mem, k);
    assert at.sent[..k + 1] == at.sent;
    StoredAt(t, slave, before.mem, at.sent, k);
    ReceivedKept(t, slave, l, k, n);
  }

  lemma StoredAt(t: Transfer, slave: Slave, mem: seq<nat>, sent: seq<nat>, k: nat)
    requires Proper(t, |mem|) && k < t.count && t.rx != 0 && Within(mem, RxAt(t, k), t.width) && |sent| == k + 1
    ensures Received(t, slave, Store(mem, RxAt(t, k), t.width, slave(sent)), sent, k)
  {
    Places(t, |mem|, k);
    assert sent[..k + 1] == sent;
  }

  lemma ReceivedKept(t: Transfer, slave: Slave, l: Link, k: nat, n: nat)
    requires Proper(t, |l.mem|) && k < n <= t.count && t.rx != 0
    requires |Run(t, slave, l, k + 1).sent| == k + 1 && |Run(t, slave, l, n).sent| == n
    requires Run(t, slave, l, n).sent[..k + 1] == Run(t, slave, l, k + 1).sent
    requires Received(t, slave, Run(t, slave, l, k + 1).mem, Run(t, slave, l, k + 1).sent, k)
    ensures Received(t, slave, Run(t, slave, l, n).mem, Run(t, slave, l, n).sent, k)
  {
    hide Run, Load, Store;
    var at := Run(t, slave, l, k + 1);
    assert at.sent[..k + 1] == at.sent;
    Places(t, |l.mem|, k);
    forall j | k < j < n
      ensures RxAt(t, k) + t.width <= RxAt(t, j)
    {
      Places(t, |l.mem|, j);
      SpiOverlap.ScaledBounds(k + 1, j, t.width);
    }
    ByteKept(t, slave, l, k + 1, n, RxAt(t, k));
    if t.width == 2 { ByteKept(t, slave, l, k + 1, n, RxAt(t, k) + 1); }
  }

  lemma FillingBytes(t: Transfer, mem: seq<nat>)
    requires Proper(t, |mem|) && t.tx == 0 && Holds(mem, t.scratch, t.fill)
    ensures Load(mem, t.scratch, t.width) == if t.width == 1 then t.fill % 256 else t.fill % 0x1_0000
  {
    LowWord(t.fill);
  }

  lemma LowWord(word: nat)
    ensures word % 256 + 256 * (word / 256 % 256) == word % 0x1_0000
  {
    var q := word / 256;
    assert word == 0x1_0000 * (q / 256) + (word % 256 + 256 * (q % 256));
    Remainder(word, q / 256, word % 256 + 256 * (q % 256));
  }

  lemma Remainder(word: nat, high: nat, low: nat)
    requires word == 0x1_0000 * high + low && low < 0x1_0000
    ensures word % 0x1_0000 == low
  {}

  lemma SentAt(t: Transfer, slave: Slave, mem: seq<nat>, k: nat)
    requires Proper(t, |mem|) && BuffersApart(t) && k < t.count
    ensures |Polled(t, slave, mem).sent| == t.count
    ensures Polled(t, slave, mem).sent[k] == Sent(t, mem, k)
  {
    hide Run, Store, Holds;
    var l := Link(Prepared(t, mem), []);
    SpiOverlap.SentWord(t, slave, l, k, t.count);
    Places(t, |mem|, k);
    if t.tx == 0 {
      StoreHolds(mem, t.scratch, t.fill);
      ScratchKept(t, slave, l, k);
      FillingBytes(t, Run(t, slave, l, k).mem);
    } else {
      forall a: nat | TxAt(t, k) <= a < TxAt(t, k) + t.width
        ensures a < |mem| && !MayWrite(t, a)
      {
        TxIsKept(t, |mem|, a);
      }
      OutsideKept(t, slave, l, k, TxAt(t, k));
      if t.width == 2 { OutsideKept(t, slave, l, k, TxAt(t, k) + 1); }
    }
  }

  lemma TxIsKept(t: Transfer, size: nat, a: nat)
    requires Proper(t, size) && BuffersApart(t) && t.tx != 0 && t.tx <= a < t.tx + t.count * t.width
    ensures a < size && !MayWrite(t, a)
  {}

  /** What a transfer is in bytes, for buffers that do not meet. */
  lemma PolledInBytes(t: Transfer, slave: Slave, mem: seq<nat>)
    requires Proper(t, |mem|) && BuffersApart(t)
    ensures InBytes(t, slave, mem, Polled(t, slave, mem).mem, Polled(t, slave, mem).sent)
  {
    hide Run, Load, Store, Sent, Received, BuffersApart;
    var l, r := Link(Prepared(t, mem), []), Polled(t, slave, mem);
    forall k: nat | k < t.count ensures |r.sent| == t.count && r.sent[k] == Sent(t, mem, k) {
      SentAt(t, slave, mem, k);
    }
    forall k: nat | k < t.count && t.rx != 0
      ensures |r.sent| == t.count && Received(t, slave, r.mem, r.sent, k)
    {
      ReceivedAt(t, slave, l, k, t.count);
    }
    forall a: nat | a < |mem| && !MayWrite(t, a) ensures r.mem[a] == mem[a] {
      OutsideKept(t, slave, l, t.count, a);
      PreparedKeeps(t, mem, a);
    }
    SentAt(t, slave, mem, 0);
  }

  lemma PreparedKeeps(t: Transfer, mem: seq<nat>, a: nat)
    requires Proper(t, |mem|) && a < |mem| && !MayWrite(t, a)
    ensures Prepared(t, mem)[a] == mem[a]
  {}

  // ---------- The loop ----------

  method Write(mem: array<nat>, a: nat, width: nat, word: nat)
    requires Within(mem[..], a, width)
    modifies mem
    ensures mem[..] == Store(old(mem[..]), a, width, word)
  {
    mem[a] := word % 256;
    if width == 2 {
      mem[a + 1] := word / 256 % 256;
    }
  }

  /** One turn of the loop: put a word, get the answer, store it. */
  method ExchangeOne(t: Transfer, slave: Slave, mem: array<nat>, i: nat, txBuf: nat, rxBuf: nat, sent: seq<nat>)
    returns (all: seq<nat>)
    requires Proper(t, |mem[..]|) && i < t.count
    requires txBuf == TxAt(t, i) && rxBuf == RxAt(t, i)
    modifies mem
    ensures Link(mem[..], all) == Exchange(t, slave, Link(old(mem[..]), sent), i)
  {
    hide Load, Store, TxAt, RxAt, Proper;
    Addresses(t, mem[..], i);
    var word := Load(mem[..], txBuf, t.width);
    all := sent + [word];
    Write(mem, rxBuf, t.width, slave(all));
  }

  method SpiPollingTransfer(t: Transfer, slave: Slave, mem: array<nat>) returns (sent: seq<nat>)
    requires Proper(t, |mem[..]|)
    modifies mem
    ensures Link(mem[..], sent) == Polled(t, slave, old(mem[..]))
    ensures BuffersApart(t) ==> InBytes(t, slave, old(mem[..]), mem[..], sent)
  {
    hide Load, Store, Exchange, InBytes, BuffersApart;
    if BuffersApart(t) { PolledInBytes(t, slave, mem[..]); }
    var rxBuf := if t.rx != 0 then t.rx else t.scratch;
    var txBuf := t.tx;
    if t.tx == 0 {
      Write(mem, t.scratch, 2, t.fill);
      txBuf := t.scratch;
    }
    ghost var start := Link(Prepared(t, old(mem[..])), []);
    sent := [];
    var transferCount := t.count;
    while transferCount > 0
      invariant 0 <= transferCount <= t.count
      invariant txBuf == TxAt(t, t.count - transferCount) && rxBuf == RxAt(t, t.count - transferCount)
      invariant Link(mem[..], sent) == Run(t, slave, start, t.count - transferCount)
    {
      var i := t.count - transferCount;
      assert |mem[..]| == |start.mem|;
      transferCount := transferCount - 1;
      sent := ExchangeOne(t, slave, mem, i, txBuf, rxBuf, sent);
      assert Link(mem[..], sent) == Run(t, slave, start, i + 1);
      if t.rx != 0 { rxBuf := rxBuf + t.width; }
      if t.tx != 0 { txBuf := txBuf + t.width; }
    }
  }
}
