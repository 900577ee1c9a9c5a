/**
The receiver of length-prefixed AVDS packets: AA 55, a 16-bit length n below 64 in network order,
and n + 2 bytes that are collected in a heap buffer and copied out at the end.
 */
module AvdsReceiver {
  import opened Integers
  import opened SerialPort

  type uint8 = x: int | 0 <= x < 256

  const PREAMBLE1: uint8 := 0xAA
  const PREAMBLE2: uint8 := 0x55
  const MAX_PAYLOAD_SIZE := 64

  // ---------- The heap ----------

  /** The heap as a ledger: which blocks are live and how large they were when allocated. */
  class Memory {
    var live: map<nat, nat>
    var allocations: nat
    var frees: nat
    /** Whether the next allocation succeeds. */
    var roomLeft: bool

    ghost predicate Valid()
      reads this
    {
      forall p :: p in live ==> p < allocations
    }

    /** A fresh pointer, or nothing when there is no room. */
    method Alloc(size: nat) returns (ok: bool, p: nat)
      requires Valid()
      modifies this`live, this`allocations
      ensures Valid() && ok == roomLeft
      ensures ok ==> p !in old(live) && live == old(live)[p := size] && allocations == old(allocations) + 1
      ensures !ok ==> live == old(live) && allocations == old(allocations)
    {
      ok, p := roomLeft, allocations;
      if ok {
        live, allocations := live[p := size], allocations + 1;
      }
    }

    /** Only a live block may be freed, and only with the size it was allocated with. */
    method Free(p: nat, size: nat)
      requires Valid() && p in live && live[p] == size
      modifies this`live, this`frees
      ensures Valid() && live == old(live) - {p} && frees == old(frees) + 1
    {
      live, frees := live - {p}, frees + 1;
    }
  }

  // ---------- The machine, byte by byte ----------

  datatype Phase =
    | Preamble1
    | Preamble2
    | PacketLength
    | LengthLow(high: uint8)
    | Payload(size: nat, rx: seq<uint8>)
    | End(size: nat, rx: seq<uint8>)
    | Failed

  /** The phase, and what stands in the caller's buffer. */
  datatype Avds = Avds(phase: Phase, out: seq<uint8>)

  predicate Ok(a: Avds) {
    |a.out| >= 6
    && (a.phase.Payload? ==> |a.phase.rx| < a.phase.size < MAX_PAYLOAD_SIZE + 2)
    && (a.phase.End? ==> |a.phase.rx| == a.phase.size < MAX_PAYLOAD_SIZE + 2)
  }

  predicate Final(a: Avds) {
    a.phase.End? || a.phase.Failed?
  }

  function Collect(a: Avds, data: seq<uint8>): Avds
    requires a.phase.Payload?
  {
    var rx := a.phase.rx + data;
    a.(phase := if |rx| >= a.phase.size then End(a.phase.size, rx) else Payload(a.phase.size, rx))
  }

  /** What the two length bytes do. `room` says whether the allocation succeeds. */
  function TakeLength(a: Avds, high: uint8, low: uint8, room: bool): (r: Avds)
    requires Ok(a)
    ensures Ok(r)
  {
    var n := high * 256 + low;
    if n < MAX_PAYLOAD_SIZE then
      Avds(if room then Payload(n + 2, []) else Failed, a.out[3 := n % 256][2 := n / 256 % 256])
    else a.(phase := Failed)
  }

  function Step(a: Avds, b: uint8, room: bool): (r: Avds)
    requires Ok(a) && !Final(a)
    ensures Ok(r) && |r.out| == |a.out|
  {
    match a.phase
    case Preamble1 => if b == PREAMBLE1 then Avds(Preamble2, a.out[0 := b]) else a
    case Preamble2 => if b == PREAMBLE2 then Avds(PacketLength, a.out[1 := b]) else a.(phase := Preamble1)
    case PacketLength => a.(phase := LengthLow(b))
    case LengthLow(high) => TakeLength(a, high, b, room)
    case Payload(size, rx) => Collect(a, [b])
  }

  function Bytes(a: Avds, s: seq<uint8>, room: bool): (r: Avds)
    requires Ok(a)
    ensures Ok(r) && |r.out| == |a.out|
    decreases |s|
  {
    if s == [] || Final(a) then a else Bytes(Step(a, s[0], room), s[1..], room)
  }

  lemma {:induction false} BytesAppend(a: Avds, s: seq<uint8>, t: seq<uint8>, room: bool)
    requires Ok(a)
    ensures Bytes(a, s + t, room) == Bytes(Bytes(a, s, room), t, room)
    decreases |s|
  {
    if s == [] {
      assert s + t == t;
    } else if !Final(a) {
      BytesAppend(Step(a, s[0], room), s[1..], t, room);
      assert (s + t)[1..] == s[1..] + t;
    }
  }

  lemma {:induction false} CollectIsBytes(a: Avds, data: seq<uint8>, room: bool)
    requires Ok(a) && a.phase.Payload? && |a.phase.rx| + |data| <= a.phase.size && data != []
    ensures Bytes(a, data, room) == Collect(a, data)
    decreases |data|
  {
    assert data == [data[0]] + data[1..];
    assert a.phase.rx + data == a.phase.rx + [data[0]] + data[1..];
    if |data| > 1 {
      CollectIsBytes(Step(a, data[0], room), data[1..], room);
    }
  }

  /** `i32CounterRead` is a function of the phase. */
  function Counter(phase: Phase): nat {
    match phase
    case Preamble1 => 0
    case Preamble2 => 1
    case PacketLength => 2
    case LengthLow(_) => 2
    case Payload(_, rx) => 4 + |rx|
    case End(_, rx) => 4 + |rx|
    case Failed => 4
  }

  // ---------- The receive loop ----------

  datatype Turn = Turn(a: Avds, timeout: nat, n: nat)

  function Tick(timeout: nat): nat {
    if timeout > 0 then timeout - 1 else 0
  }

  /** How many bytes a turn reads when `available` have arrived: the two length bytes only together,
      and never past the end of the packet. */
  function ReadSize(phase: Phase, available: nat): nat {
    match phase
    case PacketLength => if available >= 2 then 2 else 0
    case Payload(size, rx) => if size - |rx| > available then available else if size > |rx| then size - |rx| else 0
    case _ => if available >= 1 then 1 else 0
  }

  function AvdsTurn(wire: seq<uint8>, poll: nat, timeout: nat, a: Avds, room: bool): (t: Turn)
    requires Ok(a) && !Final(a) && !a.phase.LengthLow?
    ensures Ok(t.a) && !t.a.phase.LengthLow? && |t.a.out| == |a.out| && t.n <= |wire|
  {
    var n := ReadSize(a.phase, Min(poll, |wire|));
    if n == 0 then Turn(a, Tick(timeout), 0)
    else
      match a.phase
      case PacketLength => Turn(TakeLength(a, wire[0], wire[1], room), timeout, 2)
      case Payload(size, rx) => Turn(Collect(a, wire[..n]), timeout, n)
      case _ => Turn(Step(a, wire[0], room), timeout, 1)
  }

  /** A turn does what its bytes do one by one, and reads none behind a final one. */
  lemma TurnIsBytes(wire: seq<uint8>, poll: nat, timeout: nat, a: Avds, room: bool)
    requires Ok(a) && !Final(a) && !a.phase.LengthLow?
    ensures var t := AvdsTurn(wire, poll, timeout, a, room);
      t.a == Bytes(a, wire[..t.n], room)
      && forall j :: 0 <= j < t.n ==> !Final(Bytes(a, wire[..j], room))
  {
    var t := AvdsTurn(wire, poll, timeout, a, room);
    if t.n > 0 {
      if a.phase.PacketLength? {
        assert wire[..2] == [wire[0], wire[1]] && wire[..1] == [wire[0]];
        assert [wire[0], wire[1]][1..] == [wire[1]];
        var half := Step(a, wire[0], room);
        assert Bytes(half, [wire[1]], room) == Step(half, wire[1], room);
      } else if a.phase.Payload? {
        CollectIsBytes(a, wire[..t.n], room);
        forall j | 0 <= j < t.n
          ensures !Final(Bytes(a, wire[..j], room))
        {
          if j > 0 { CollectIsBytes(a, wire[..j], room); }
        }
      } else {
        assert wire[..1] == [wire[0]];
      }
    }
  }

  datatype Outcome = Completed | Refused | TimedOut | Waiting

  /** How a call ends: the outcome, the machine, the bytes consumed, and the last single-byte read. */
  datatype Run = Run(outcome: Outcome, a: Avds, consumed: nat, lastRead: nat)

  function AvdsRun(wire: seq<uint8>, polls: seq<nat>, timeout: nat, a: Avds, room: bool, lastRead: nat): (run: Run)
    requires Ok(a) && !Final(a) && !a.phase.LengthLow?
    ensures Ok(run.a) && |run.a.out| == |a.out| && run.consumed <= |wire|
    ensures run.outcome.Completed? ==> run.a.phase.End?
    decreases |polls|
  {
    if polls == [] then Run(Waiting, a, 0, lastRead)
    else
      var t := AvdsTurn(wire, polls[0], timeout, a, room);
      var last := if t.n > 0 then t.n else lastRead;
      if t.a.phase.Failed? then Run(Refused, t.a, t.n, last)
      else if t.timeout == 0 then Run(TimedOut, t.a, t.n, last)
      else if t.a.phase.End? then Run(Completed, t.a, t.n, last)
      else
        var later := AvdsRun(wire[t.n..], polls[1..], t.timeout, t.a, room, last);
        Run(later.outcome, later.a, t.n + later.consumed, later.lastRead)
  }

  /** Independence from chunking: the machine a call ends with depends only on the bytes it consumed,
      and it has consumed none behind a final one. */
  lemma {:induction false} RunIsBytes(
      wire: seq<uint8>, polls: seq<nat>, timeout: nat, a: Avds, room: bool, lastRead: nat)
    requires Ok(a) && !Final(a) && !a.phase.LengthLow?
    ensures var run := AvdsRun(wire, polls, timeout, a, room, lastRead);
      run.a == Bytes(a, wire[..run.consumed], room)
      && forall j :: 0 <= j < run.consumed ==> !Final(Bytes(a, wire[..j], room))
    decreases |polls|
  {
    hide Step, AvdsTurn, Ok;
    if polls != [] {
      var t := AvdsTurn(wire, polls[0], timeout, a, room);
      TurnIsBytes(wire, polls[0], timeout, a, room);
      if !Final(t.a) && t.timeout != 0 {
        var last := if t.n > 0 then t.n else lastRead;
        var rest := wire[t.n..];
        var later := AvdsRun(rest, polls[1..], t.timeout, t.a, room, last);
        RunIsBytes(rest, polls[1..], t.timeout, t.a, room, last);
        BytesFrom(a, wire, t.n, later.consumed, room);
        forall j | 0 <= j < t.n + later.consumed
          ensures !Final(Bytes(a, wire[..j], room))
        {
          if j >= t.n { BytesFrom(a, wire, t.n, j - t.n, room); }
        }
      }
    }
  }

  lemma BytesFrom(a: Avds, wire: seq<uint8>, n: nat, m: nat, room: bool)
    requires Ok(a) && n + m <= |wire|
    ensures Bytes(a, wire[..n + m], room) == Bytes(Bytes(a, wire[..n], room), wire[n..][..m], room)
  {
    BytesAppend(a, wire[..n], wire[n..][..m], room);
    assert wire[..n + m] == wire[..n] + wire[n..][..m];
  }

  /** What the call leaves in the caller's buffer: the whole payload at the end, what there is of it
      at a timeout, and in either case only if the caller's `length` has room for it. */
  function ReturnedBuffer(run: Run, length: nat): (out: seq<uint8>)
    requires Ok(run.a) && length <= |run.a.out|
    ensures |out| == |run.a.out|
    ensures length >= 6 ==> out[length..] == run.a.out[length..]
  {
    var a := run.a;
    if (run.outcome.Completed? && a.phase.End?) || (run.outcome.TimedOut? && a.phase.Payload?) then
      var rx := a.phase.rx;
      if length >= |rx| + 4 then a.out[..4] + rx + a.out[4 + |rx|..] else a.out
    else a.out
  }

  function ReturnedCount(run: Run): int {
    if Counter(run.a.phase) != 0 then Counter(run.a.phase) else run.lastRead
  }

  // ---------- The call ----------

  /** The packet-length state with both bytes read. */
  method LengthTurn(memory: Memory, pStr: array<uint8>, data: seq<uint8>) returns (phase: Phase, block: nat)
    requires memory.Valid() && pStr.Length >= 6 && |data| == 2
    modifies memory`live, memory`allocations, pStr
    ensures memory.Valid()
    ensures Avds(phase, pStr[..])
      == TakeLength(Avds(PacketLength, old(pStr[..])), data[0], data[1], memory.roomLeft)
    ensures phase.Payload? ==> Allocated(old(memory.live), memory.live, block, phase.size)
    ensures phase.Payload? ==> memory.allocations == old(memory.allocations) + 1
    ensures !phase.Payload? ==> memory.live == old(memory.live) && memory.allocations == old(memory.allocations)
  {
    var ui16PacketLength := data[0] as int * 256 + data[1] as int;
    phase, block := Failed, 0;
    if ui16PacketLength < MAX_PAYLOAD_SIZE {
      pStr[3] := ui16PacketLength % 256;
      pStr[2] := ui16PacketLength / 256 % 256;
      ui16PacketLength := ui16PacketLength + 2;
      var ok;
      ok, block := memory.Alloc(ui16PacketLength);
      if ok {
        phase := Payload(ui16PacketLength, []);
      }
    }
  }

  /** One block more than before. */
  predicate Allocated(before: map<nat, nat>, now: map<nat, nat>, block: nat, size: nat) {
    block !in before && now == before[block := size]
  }

  /** Copy the payload out if there is room for it, and free the block. */
  method CopyAndFree(memory: Memory, pStr: array<uint8>, length: nat, rx: seq<uint8>, block: nat, size: nat)
    requires memory.Valid() && block in memory.live && memory.live[block] == size
    requires length <= pStr.Length
    modifies memory`live, memory`frees, pStr
    ensures memory.Valid() && memory.live == old(memory.live) - {block}
    ensures memory.frees == old(memory.frees) + 1
    ensures pStr[..] == if length >= |rx| + 4
      then old(pStr[..])[..4] + rx + old(pStr[..])[4 + |rx|..] else old(pStr[..])
  {
    if length >= |rx| + 4 {
      forall i | 0 <= i < |rx| { pStr[4 + i] := rx[i]; }
    }
    memory.Free(block, size);
  }

  /** The preamble states, with one byte read. */
  method PreambleByte(pStr: array<uint8>, phase: Phase, b: uint8, ghost room: bool) returns (next: Phase)
    requires pStr.Length >= 6 && (phase.Preamble1? || phase.Preamble2?)
    modifies pStr
    ensures Avds(next, pStr[..]) == Step(Avds(phase, old(pStr[..])), b, room)
  {
    next := phase;
    if phase.Preamble1? {
      if b == PREAMBLE1 {
        pStr[0] := b;
        next := Preamble2;
      }
    } else if b == PREAMBLE2 {
      pStr[1] := b;
      next := PacketLength;
    } else {
      next := Preamble1;
    }
  }

  /** The read of the payload state. The branch for a write pointer at the end of the block cannot be
      taken: the bytes still missing are what the pointer has left to go. */
  method PayloadRead(uart: Uart<uint8>, size: nat, rx: seq<uint8>, dataAvailable: nat) returns (phase: Phase, read: nat)
    requires |rx| < size && 0 < dataAvailable <= |uart.wire|
    modifies uart`wire
    ensures read == ReadSize(Payload(size, rx), dataAvailable) <= |old(uart.wire)|
    ensures uart.wire == old(uart.wire)[read..]
    ensures var all := rx + old(uart.wire)[..read];
      phase == if |all| >= size then End(size, all) else Payload(size, all)
  {
    var pPayload, pPayloadRx := 0, |rx|;
    var data;
    if size - |rx| > dataAvailable {
      if pPayloadRx < pPayload + size {
        data := uart.Read(dataAvailable);
        phase := Payload(size, rx + data);
      } else {
        assert false;
      }
    } else {
      data := uart.Read(size - |rx|);
      phase := End(size, rx + data);
    }
    read := |data|;
  }

  /** One turn of the loop before the end state. */
  method ReceiveOnce(uart: Uart<uint8>, memory: Memory, pStr: array<uint8>, phase: Phase, block: nat, timeout: nat,
                     ghost live: map<nat, nat>)
    returns (next: Phase, nextBlock: nat, left: nat, read: nat)
    requires Ok(Avds(phase, pStr[..])) && !Final(Avds(phase, pStr[..])) && !phase.LengthLow?
    requires uart.polls != [] && memory.Valid() && Holds(live, memory.live, phase, block)
    modifies uart, memory`live, memory`allocations, pStr
    ensures Turn(Avds(next, pStr[..]), left, read)
      == AvdsTurn(old(uart.wire), old(uart.polls)[0], timeout, Avds(phase, old(pStr[..])), memory.roomLeft)
    ensures uart.wire == old(uart.wire)[read..] && uart.polls == old(uart.polls)[1..]
    ensures memory.Valid() && Holds(live, memory.live, next, nextBlock)
    ensures memory.allocations - old(memory.allocations) == Blocks(next) - Blocks(phase)
    ensures next.End? ==> phase.Payload? && left == timeout
    ensures phase.Preamble1? ==> next.Preamble1? || next.Preamble2?
  {
    next, nextBlock, left, read := phase, block, timeout, 0;
    var dataAvailable := uart.RxCount();
    if ReadSize(phase, dataAvailable) == 0 {
      left := Tick(timeout);
    } else if phase.PacketLength? {
      var data := uart.Read(2);
      read := 2;
      next, nextBlock := LengthTurn(memory, pStr, data);
    } else if phase.Payload? {
      next, read := PayloadRead(uart, phase.size, phase.rx, dataAvailable);
    } else {
      var data := uart.Read(1);
      read := 1;
      next := PreambleByte(pStr, phase, data[0], memory.roomLeft);
    }
  }

  /** The call holds the block it has allocated while it collects the payload, and nothing else. */
  predicate Holds(before: map<nat, nat>, now: map<nat, nat>, phase: Phase, block: nat) {
    match phase
    case Payload(size, _) => Allocated(before, now, block, size)
    case End(size, _) => Allocated(before, now, block, size)
    case _ => now == before
  }

  function Blocks(phase: Phase): nat {
    if phase.Payload? || phase.End? then 1 else 0
  }

  function After(n: nat, later: Run): Run {
    Run(later.outcome, later.a, n + later.consumed, later.lastRead)
  }

  lemma RunStep(wire: seq<uint8>, polls: seq<nat>, timeout: nat, a: Avds, room: bool, lastRead: nat)
    requires Ok(a) && !Final(a) && !a.phase.LengthLow? && polls != []
    ensures var t := AvdsTurn(wire, polls[0], timeout, a, room);
      var last := if t.n > 0 then t.n else lastRead;
      AvdsRun(wire, polls, timeout, a, room, lastRead)
        == if t.a.phase.Failed? then Run(Refused, t.a, t.n, last)
           else if t.timeout == 0 then Run(TimedOut, t.a, t.n, last)
           else if t.a.phase.End? then Run(Completed, t.a, t.n, last)
           else After(t.n, AvdsRun(wire[t.n..], polls[1..], t.timeout, t.a, room, last))
  {
    hide AvdsTurn;
  }

  /** The ledger is back where it was: what was allocated has been freed, once. */
  twostate predicate Balanced(memory: Memory, before: map<nat, nat>)
    reads memory
  {
    && memory.live == before
    && memory.frees - old(memory.frees) == memory.allocations - old(memory.allocations) <= 1
  }

  /** A turn that may be the last one: a timeout copies out what there is of the payload and frees. */
  method TurnAndFree(uart: Uart<uint8>, memory: Memory, pStr: array<uint8>, length: nat,
                     phase: Phase, block: nat, timeout: nat, ghost live: map<nat, nat>)
    returns (next: Phase, nextBlock: nat, left: nat, read: nat, again: bool, ghost t: Turn)
    requires Ok(Avds(phase, pStr[..])) && !Final(Avds(phase, pStr[..])) && !phase.LengthLow?
    requires uart.polls != [] && length <= pStr.Length
    requires memory.Valid() && Holds(live, memory.live, phase, block)
    modifies uart, memory`live, memory`allocations, memory`frees, pStr
    ensures t == AvdsTurn(old(uart.wire), old(uart.polls)[0], timeout, Avds(phase, old(pStr[..])), memory.roomLeft)
    ensures next == t.a.phase && left == t.timeout && read == t.n
    ensures uart.wire == old(uart.wire)[read..] && uart.polls == old(uart.polls)[1..]
    ensures next.End? ==> phase.Payload? && left == timeout
    ensures phase.Preamble1? ==> next.Preamble1? || next.Preamble2?
    ensures memory.Valid() && memory.allocations - old(memory.allocations) == Blocks(next) - Blocks(phase)
    ensures again == (left != 0 && !next.Failed?)
    ensures again ==> pStr[..] == t.a.out && Holds(live, memory.live, next, nextBlock)
    ensures again ==> memory.frees == old(memory.frees)
    ensures !again && !next.End? ==> memory.live == live && memory.frees == old(memory.frees) + Blocks(next)
    ensures !again && !next.End? ==>
      pStr[..] == ReturnedBuffer(Run(if next.Failed? then Refused else TimedOut, t.a, 0, 0), length)
  {
    next, nextBlock, left, read := ReceiveOnce(uart, memory, pStr, phase, block, timeout, live);
    t := Turn(Avds(next, pStr[..]), left, read);
    again := left != 0 && !next.Failed?;
    if !again && next.Payload? {
      CopyAndFree(memory, pStr, length, next.rx, nextBlock, next.size);
    }
  }

  /** The end state. */
  method EndTurn(memory: Memory, pStr: array<uint8>, length: nat, phase: Phase, block: nat,
                 ghost live: map<nat, nat>, ghost run: Run)
    requires phase.End? && memory.Valid() && Holds(live, memory.live, phase, block)
    requires Ok(run.a) && length <= pStr.Length && run.outcome.Completed? && run.a == Avds(phase, pStr[..])
    modifies memory`live, memory`frees, pStr
    ensures memory.Valid() && memory.live == live && memory.frees == old(memory.frees) + 1
    ensures pStr[..] == ReturnedBuffer(run, length)
  {
    CopyAndFree(memory, pStr, length, phase.rx, block, phase.size);
  }

  /** The turns up to the end state or the end of the call. */
  method ReceiveTurns(uart: Uart<uint8>, memory: Memory, pStr: array<uint8>, length: nat, ticks: nat)
    returns (phase: Phase, block: nat, again: bool, lastRead: nat, ghost run: Run)
    requires memory.Valid() && 6 <= length <= pStr.Length
    modifies uart, memory`live, memory`allocations, memory`frees, pStr
    ensures Ok(Avds(phase, pStr[..])) && !phase.LengthLow? && memory.Valid()
    ensures run == AvdsRun(old(uart.wire), old(uart.polls), ticks, Avds(Preamble1, old(pStr[..])), memory.roomLeft, 0)
    ensures uart.wire == old(uart.wire)[run.consumed..] && run.lastRead == lastRead && run.a.phase == phase
    ensures again ==> Holds(old(memory.live), memory.live, phase, block) && memory.frees == old(memory.frees)
    ensures again ==> memory.allocations == old(memory.allocations) + Blocks(phase)
    ensures again ==> (run.outcome == if phase.End? then Completed else Waiting) && run.a == Avds(phase, pStr[..])
    ensures again ==> !phase.Failed?
    ensures !again ==> !run.outcome.Waiting? && pStr[..] == ReturnedBuffer(run, length)
    ensures !again ==> Balanced(memory, old(memory.live))
  {
    hide AvdsTurn, AvdsRun, ReturnedBuffer, Holds, Blocks;
    NothingAllocated(memory.live, 0);
    var left := ticks;
    phase, block, again, lastRead := Preamble1, 0, true, 0;
    var consumed: nat := 0;
    ghost var wire, live, room := uart.wire, memory.live, memory.roomLeft;
    run := AvdsRun(uart.wire, uart.polls, ticks, Avds(Preamble1, pStr[..]), room, 0);
    while again && !phase.End? && uart.polls != []
      invariant Ok(Avds(phase, pStr[..])) && !phase.LengthLow? && memory.Valid()
      invariant consumed <= |wire| && uart.wire == wire[consumed..]
      invariant again ==> !phase.Failed? && (left > 0 || phase.Preamble1?)
      invariant again ==> Holds(live, memory.live, phase, block) && memory.frees == old(memory.frees)
      invariant again ==> memory.allocations == old(memory.allocations) + Blocks(phase)
      invariant again && phase.End? ==> run == Run(Completed, Avds(phase, pStr[..]), consumed, lastRead)
      invariant again && !phase.End? ==>
        run == After(consumed, AvdsRun(uart.wire, uart.polls, left, Avds(phase, pStr[..]), room, lastRead))
      invariant !again ==> !run.outcome.Waiting? && run.consumed == consumed && run.lastRead == lastRead
      invariant !again ==> run.a.phase == phase && pStr[..] == ReturnedBuffer(run, length)
      invariant !again ==> Balanced(memory, live)
      decreases |uart.polls|
    {
      var read;
      ghost var t;
      RunStep(uart.wire, uart.polls, left, Avds(phase, pStr[..]), room, lastRead);
      phase, block, left, read, again, t := TurnAndFree(uart, memory, pStr, length, phase, block, left, live);
      consumed := consumed + read;
      if read > 0 { lastRead := read; }
      if !again && !phase.End? {
        BlocksOf(phase);
        SameBuffer(run, Run(if phase.Failed? then Refused else TimedOut, t.a, 0, 0), length);
      }
    }
    if again && !phase.End? {
      NothingReturned(uart.wire, left, Avds(phase, pStr[..]), room, lastRead, run, length);
    }
  }

  method ReceivePacket(uart: Uart<uint8>, memory: Memory, pStr: array<uint8>, length: nat, ticks: nat)
    returns (ret: int, ghost run: Run)
    requires memory.Valid() && 6 <= length <= pStr.Length
    modifies uart, memory`live, memory`allocations, memory`frees, pStr
    ensures memory.Valid()
    ensures run == AvdsRun(old(uart.wire), old(uart.polls), ticks, Avds(Preamble1, old(pStr[..])), memory.roomLeft, 0)
    ensures uart.wire == old(uart.wire)[run.consumed..]
    ensures ret == ReturnedCount(run) && pStr[..] == ReturnedBuffer(run, length)
    ensures !run.outcome.Waiting? ==> Balanced(memory, old(memory.live))
  {
    hide AvdsTurn, AvdsRun, ReturnedBuffer, Holds, Blocks, Counter;
    ghost var live := memory.live;
    var phase, block, again, lastRead;
    phase, block, again, lastRead, run := ReceiveTurns(uart, memory, pStr, length, ticks);
    if again {
      BlocksOf(phase);
      if phase.End? {
        EndTurn(memory, pStr, length, phase, block, live, run);
      } else {
        WaitingReturnsNothing(run, length);
      }
    }
    ret := if Counter(phase) != 0 then Counter(phase) else lastRead;
  }

  lemma WaitingReturnsNothing(run: Run, length: nat)
    requires Ok(run.a) && length <= |run.a.out| && run.outcome.Waiting?
    ensures ReturnedBuffer(run, length) == run.a.out
  {}

  lemma NothingAllocated(live: map<nat, nat>, block: nat)
    ensures Holds(live, live, Preamble1, block) && Blocks(Preamble1) == 0
  {}

  lemma BlocksOf(phase: Phase)
    ensures Blocks(phase) <= 1 && (phase.End? ==> Blocks(phase) == 1)
  {}

  lemma SameBuffer(r: Run, s: Run, length: nat)
    requires Ok(r.a) && length <= |r.a.out| && s.a == r.a && s.outcome == r.outcome
    ensures ReturnedBuffer(r, length) == ReturnedBuffer(s, length)
  {}

  lemma NothingReturned(wire: seq<uint8>, timeout: nat, a: Avds, room: bool, lastRead: nat, run: Run, length: nat)
    requires Ok(a) && !Final(a) && !a.phase.LengthLow? && length <= |a.out|
    ensures AvdsRun(wire, [], timeout, a, room, lastRead) == Run(Waiting, a, 0, lastRead)
    ensures run.a == a && run.outcome.Waiting? ==> ReturnedBuffer(run, length) == a.out
  {}

  method ReceiveAvdsFrame(uart: Uart<uint8>, memory: Memory, pStr: array<uint8>, length: nat, ticks: nat)
    returns (ret: int, ghost run: Run)
    requires memory.Valid() && length <= pStr.Length
    modifies uart, memory`live, memory`allocations, memory`frees, pStr
    ensures memory.Valid()
    ensures length < 6 ==> ret == 0 && uart.wire == old(uart.wire) && pStr[..] == old(pStr[..])
    ensures length >= 6 ==>
      run == AvdsRun(old(uart.wire), old(uart.polls), ticks, Avds(Preamble1, old(pStr[..])), memory.roomLeft, 0)
    ensures length >= 6 ==> uart.wire == old(uart.wire)[run.consumed..]
    ensures length >= 6 ==> ret == ReturnedCount(run)
    ensures length >= 6 ==> pStr[..] == ReturnedBuffer(run, length)
    ensures length < 6 || !run.outcome.Waiting? ==> Balanced(memory, old(memory.live))
  {
    if length >= 6 {
      ret, run := ReceivePacket(uart, memory, pStr, length, ticks);
    } else {
      ret, run := 0, Run(Waiting, Avds(Preamble1, [0, 0, 0, 0, 0, 0]), 0, 0);
    }
  }
}
