/**
The byte state machine that receives the same ALTO messages. It reads one byte a turn, except in the
payload state, where it reads as much as has arrived.
 */
module AltoFsmReceiver {
  import opened AltoCodec
  import opened Integers
  import opened SerialPort

  datatype State = Prefix0 | Prefix1 | Prefix2 | Prefix3 | Payload | CrState | LfState

  /** The machine's variables: `got` is the filled part of `frameBuffer`. */
  datatype Fsm = Fsm(state: State, got: seq<byte>, finished: bool, error: bool)

  const START := Fsm(Prefix0, [], false, false)

  predicate Ok(f: Fsm) {
    && (f.state.Payload? ==> |f.got| < TEXT_SIZE)
    && (f.state.CrState? || f.state.LfState? ==> |f.got| == TEXT_SIZE)
    && (if f.finished then f.state.CrState? || f.state.LfState? else !f.error)
    && (!f.state.Payload? && !f.state.CrState? && !f.state.LfState? ==> f.got == [])
  }

  predicate IsA(b: byte) {
    b == 0x41 || b == 0x61
  }

  const FIVE: byte := 0x35

  function Collect(f: Fsm, data: seq<byte>): Fsm {
    var got := f.got + data;
    Fsm(if |got| >= TEXT_SIZE then CrState else Payload, got, f.finished, f.error)
  }

  /** What one byte does, however it was read. */
  function Step(f: Fsm, b: byte): (r: Fsm)
    requires Ok(f) && !f.finished
    ensures Ok(r)
  {
    match f.state
    case Prefix0 => if IsA(b) then f.(state := Prefix1) else f
    case Prefix1 => f.(state := if IsA(b) then Prefix2 else Prefix0)
    case Prefix2 => f.(state := if IsA(b) then Prefix1 else if b == FIVE then Prefix3 else Prefix0)
    case Prefix3 => f.(state := if IsA(b) then Prefix1 else if b == FIVE then Payload else Prefix0)
    case Payload => Collect(f, [b])
    case CrState => if b == CR then f.(state := LfState) else f.(finished := true, error := true)
    case LfState => if b == LF then f.(finished := true) else f.(finished := true, error := true)
  }

  /** The bytes of a stream one after the other, up to the one that finishes the machine. */
  function Bytes(f: Fsm, s: seq<byte>): (r: Fsm)
    requires Ok(f)
    ensures Ok(r)
    decreases |s|
  {
    if s == [] || f.finished then f else Bytes(Step(f, s[0]), s[1..])
  }

  /** `i32CounterRead` is a function of the machine's state. */
  function Counter(f: Fsm): nat {
    match f.state
    case Prefix0 => 0
    case Prefix1 => 1
    case Prefix2 => 2
    case Prefix3 => 3
    case Payload => 4 + |f.got|
    case CrState => 68
    case LfState => if f.finished && !f.error then 70 else 69
  }

  lemma {:induction false} BytesAppend(f: Fsm, s: seq<byte>, t: seq<byte>)
    requires Ok(f)
    ensures Bytes(f, s + t) == Bytes(Bytes(f, s), t)
    decreases |s|
  {
    if s == [] {
      assert s + t == t;
    } else if !f.finished {
      BytesAppend(Step(f, s[0]), s[1..], t);
      assert (s + t)[1..] == s[1..] + t;
    }
  }

  lemma {:induction false} CollectIsBytes(f: Fsm, data: seq<byte>)
    requires Ok(f) && f.state.Payload? && |f.got| + |data| <= TEXT_SIZE && data != []
    ensures Bytes(f, data) == Collect(f, data)
    decreases |data|
  {
    var next := Step(f, data[0]);
    assert data == [data[0]] + data[1..];
    assert f.got + data == f.got + [data[0]] + data[1..];
    if |data| > 1 {
      CollectIsBytes(next, data[1..]);
    }
  }

  // ---------- The receive loop ----------

  /** One turn of the loop: the machine, the ticks left, and the bytes read. */
  datatype Turn = Turn(f: Fsm, timeout: nat, n: nat)

  function FsmTurn(wire: seq<byte>, poll: nat, timeout: nat, f: Fsm): (t: Turn)
    requires Ok(f) && !f.finished
    ensures Ok(t.f) && t.n <= |wire|
    ensures t.n == 0 <==> poll == 0 || wire == []
  {
    var available := Min(poll, |wire|);
    if available == 0 then Turn(f, if timeout > 0 then timeout - 1 else 0, 0)
    else if f.state.Payload? then
      var n := if TEXT_SIZE - |f.got| > available then available else TEXT_SIZE - |f.got|;
      Turn(Collect(f, wire[..n]), timeout, n)
    else Turn(Step(f, wire[0]), timeout, 1)
  }

  /** A turn reads some bytes and does to the machine what those bytes do one by one. */
  lemma TurnIsBytes(wire: seq<byte>, poll: nat, timeout: nat, f: Fsm)
    requires Ok(f) && !f.finished
    ensures var t := FsmTurn(wire, poll, timeout, f); t.f == Bytes(f, wire[..t.n])
  {
    var t := FsmTurn(wire, poll, timeout, f);
    if t.n > 0 {
      if f.state.Payload? {
        CollectIsBytes(f, wire[..t.n]);
      } else {
        assert wire[..1] == [wire[0]];
      }
    }
  }

  /** How a call ends: the machine, the bytes consumed, and the size of the last read. */
  datatype Run = Run(f: Fsm, consumed: nat, lastRead: nat)

  function FsmRun(wire: seq<byte>, polls: seq<nat>, timeout: nat, f: Fsm, lastRead: nat): (run: Run)
    requires Ok(f) && !f.finished
    ensures Ok(run.f) && run.consumed <= |wire|
    ensures lastRead <= TEXT_SIZE ==> run.lastRead <= TEXT_SIZE
    decreases |polls|
  {
    if polls == [] then Run(f, 0, lastRead)
    else
      var t := FsmTurn(wire, polls[0], timeout, f);
      var last := if t.n > 0 then t.n else lastRead;
      if t.f.finished || t.timeout == 0 then Run(t.f, t.n, last)
      else
        var later := FsmRun(wire[t.n..], polls[1..], t.timeout, t.f, last);
        Run(later.f, t.n + later.consumed, later.lastRead)
  }

  /** Independence from chunking: how far a call gets depends on the arrival pattern, but the state
      it ends in depends only on the bytes it has consumed. */
  lemma {:induction false} RunIsBytes(wire: seq<byte>, polls: seq<nat>, timeout: nat, f: Fsm, lastRead: nat)
    requires Ok(f) && !f.finished
    ensures var run := FsmRun(wire, polls, timeout, f, lastRead);
      run.f == Bytes(f, wire[..run.consumed])
    decreases |polls|
  {
    hide Step, FsmTurn;
    if polls != [] {
      var t := FsmTurn(wire, polls[0], timeout, f);
      TurnIsBytes(wire, polls[0], timeout, f);
      if !t.f.finished && t.timeout != 0 {
        var last := if t.n > 0 then t.n else lastRead;
        var later := FsmRun(wire[t.n..], polls[1..], t.timeout, t.f, last);
        RunIsBytes(wire[t.n..], polls[1..], t.timeout, t.f, last);
        BytesAppend(f, wire[..t.n], wire[t.n..][..later.consumed]);
        assert wire[..t.n + later.consumed] == wire[..t.n] + wire[t.n..][..later.consumed];
      }
    }
  }

  lemma TurnStops(wire: seq<byte>, poll: nat, timeout: nat, f: Fsm, j: nat)
    requires Ok(f) && !f.finished && j < FsmTurn(wire, poll, timeout, f).n
    ensures !Bytes(f, wire[..j]).finished
  {
    if j > 0 { CollectIsBytes(f, wire[..j]); }
  }

  /** A call consumes no byte behind the one that finishes it. */
  lemma {:induction false} RunStops(wire: seq<byte>, polls: seq<nat>, timeout: nat, f: Fsm, lastRead: nat, j: nat)
    requires Ok(f) && !f.finished && j < FsmRun(wire, polls, timeout, f, lastRead).consumed
    ensures !Bytes(f, wire[..j]).finished
    decreases |polls|
  {
    hide Step, FsmTurn, Bytes;
    var t := FsmTurn(wire, polls[0], timeout, f);
    if j < t.n {
      TurnStops(wire, polls[0], timeout, f, j);
    } else {
      TurnIsBytes(wire, polls[0], timeout, f);
      RunStops(wire[t.n..], polls[1..], t.timeout, t.f, if t.n > 0 then t.n else lastRead, j - t.n);
      BytesAppend(f, wire[..t.n], wire[t.n..][..j - t.n]);
      assert wire[..j] == wire[..t.n] + wire[t.n..][..j - t.n];
    }
  }

  /** What a call leaves in the caller's buffer. */
  function ReturnedBuffer(out: seq<byte>, f: Fsm): seq<byte>
    requires |out| >= TEXT_SIZE
  {
    if |f.got| == TEXT_SIZE then f.got + out[TEXT_SIZE..] else out
  }

  function ReturnedCount(run: Run): int {
    if Counter(run.f) != 0 then Counter(run.f) else run.lastRead
  }

  /** The switch over the states that read a single byte. */
  method OneByte(f: Fsm, counter: int, b: byte) returns (next: Fsm, counterRead: int)
    requires Ok(f) && !f.finished && !f.state.Payload? && counter == Counter(f)
    ensures next == Step(f, b) && counterRead == Counter(next)
  {
    var state, isFinish, isError := f.state, false, false;
    counterRead := counter;
    match f.state {
      case Prefix0 =>
        if IsA(b) { counterRead, state := 1, Prefix1; }
      case Prefix1 =>
        if IsA(b) { counterRead, state := 2, Prefix2; } else { counterRead, state := 0, Prefix0; }
      case Prefix2 =>
        if IsA(b) { counterRead, state := 1, Prefix1; }
        else if b == FIVE { counterRead, state := 3, Prefix3; }
        else { counterRead, state := 0, Prefix0; }
      case Prefix3 =>
        if IsA(b) { counterRead, state := 1, Prefix1; }
        else if b == FIVE { counterRead, state := 4, Payload; }
        else { counterRead, state := 0, Prefix0; }
      case CrState =>
        if b == CR { counterRead, state := counterRead + 1, LfState; } else { isError, isFinish := true, true; }
      case LfState =>
        if b == LF { counterRead, isFinish := counterRead + 1, true; } else { isError, isFinish := true, true; }
    }
    next := Fsm(state, f.got, isFinish, isError);
  }

  /** The payload state: `frameBuffer` grows, and is copied out when it is full. */
  method TakeData(pStr: array<byte>, f: Fsm, counter: int, data: seq<byte>) returns (next: Fsm, counterRead: int)
    requires Ok(f) && !f.finished && f.state.Payload? && counter == Counter(f)
    requires |f.got| + |data| <= TEXT_SIZE <= pStr.Length
    modifies pStr
    ensures next == Collect(f, data) && counterRead == Counter(next)
    ensures pStr[..] == ReturnedBuffer(old(pStr[..]), next)
  {
    var state, frameBuffer := f.state, f.got + data;
    counterRead := counter + |data|;
    if |frameBuffer| >= TEXT_SIZE {
      forall i | 0 <= i < TEXT_SIZE { pStr[i] := frameBuffer[i]; }
      assert pStr[..] == frameBuffer + old(pStr[..])[TEXT_SIZE..];
      state := CrState;
    }
    next := Fsm(state, frameBuffer, false, false);
  }

  /** The body of the loop. */
  method ReceiveOnce(uart: Uart<byte>, pStr: array<byte>, f: Fsm, counter: int, timeout: nat, ghost out: seq<byte>)
    returns (next: Fsm, counterRead: int, left: nat, read: nat)
    requires Ok(f) && !f.finished && counter == Counter(f)
    requires uart.polls != [] && pStr.Length >= TEXT_SIZE
    requires |out| == pStr.Length && pStr[..] == ReturnedBuffer(out, f)
    modifies uart, pStr
    ensures Turn(next, left, read) == FsmTurn(old(uart.wire), old(uart.polls)[0], timeout, f)
    ensures uart.wire == old(uart.wire)[read..] && uart.polls == old(uart.polls)[1..]
    ensures counterRead == Counter(next)
    ensures pStr[..] == ReturnedBuffer(out, next)
  {
    next, counterRead, left, read := f, counter, timeout, 0;
    var dataAvailable := uart.RxCount();
    if dataAvailable == 0 {
      if left > 0 { left := left - 1; }
    } else if f.state.Payload? {
      var room := TEXT_SIZE - |f.got|;
      var data := uart.Read(if room > dataAvailable then dataAvailable else room);
      read := |data|;
      next, counterRead := TakeData(pStr, f, counter, data);
    } else {
      var data := uart.Read(1);
      read := 1;
      next, counterRead := OneByte(f, counter, data[0]);
    }
  }

  method ReceiveAltoFrameFsm(uart: Uart<byte>, pStr: array<byte>, length: nat, ticks: nat)
    returns (ret: int, ghost run: Run)
    requires length <= pStr.Length
    modifies uart, pStr
    ensures length < TEXT_SIZE ==>
      ret == 0 && uart.wire == old(uart.wire) && pStr[..] == old(pStr[..])
    ensures length >= TEXT_SIZE ==>
      && run == FsmRun(old(uart.wire), old(uart.polls), ticks, START, 0)
      && uart.wire == old(uart.wire)[run.consumed..]
      && ret == ReturnedCount(run)
      && pStr[..] == ReturnedBuffer(old(pStr[..]), run.f)
  {
    hide FsmTurn;
    ret, run := 0, Run(START, 0, 0);
    if length < TEXT_SIZE {
      return;
    }
    var f, counterRead, timeout, again := START, 0, ticks, true;
    var consumed: nat := 0;
    ghost var wire, out := uart.wire, pStr[..];
    var lastRead: nat := 0;
    run := FsmRun(uart.wire, uart.polls, ticks, START, 0);
    while again && uart.polls != []
      invariant Ok(f) && counterRead == Counter(f)
      invariant consumed <= |wire| && uart.wire == wire[consumed..]
      invariant pStr[..] == ReturnedBuffer(out, f)
      invariant again ==> !f.finished
      invariant again ==>
        var later := FsmRun(uart.wire, uart.polls, timeout, f, lastRead);
        run == Run(later.f, consumed + later.consumed, later.lastRead)
      invariant !again ==> run == Run(f, consumed, lastRead)
      decreases |uart.polls|
    {
      var read;
      f, counterRead, timeout, read := ReceiveOnce(uart, pStr, f, counterRead, timeout, out);
      consumed := consumed + read;
      if read > 0 { lastRead := read; }
      again := timeout != 0 && !f.finished;
    }
    ret := if counterRead != 0 then counterRead else lastRead;
  }
}
