/**
How long the ALTO receivers go on: exactly when a call gets to the end of a message, exactly when it times
out, and what it then leaves in the caller's buffer.
 */
module AltoTiming {
  import opened AltoCodec
  import opened Integers
  import opened AltoFsmReceiver
  import opened AltoAgreement
  import Str = AltoStringReceiver
  import StrTheorems = AltoStringTheorems

  // ---------- The state machine on any stream ----------

  /** The turns for which nothing has come, before the machine finishes. */
  function IdleTurns(wire: seq<byte>, polls: seq<nat>, f: Fsm): nat
    requires Ok(f)
    decreases |polls|
  {
    if polls == [] || f.finished then 0
    else
      var t := FsmTurn(wire, polls[0], 0, f);
      (if polls[0] == 0 || wire == [] then 1 else 0) + IdleTurns(wire[t.n..], polls[1..], t.f)
  }

  lemma TurnIdles(wire: seq<byte>, poll: nat, timeout: nat, f: Fsm)
    requires Ok(f) && !f.finished
    ensures var t, s := FsmTurn(wire, poll, timeout, f), FsmTurn(wire, poll, 0, f);
      && t.f == s.f && t.n == s.n
      && (if poll == 0 || wire == [] then t.n == 0 && t.f == f && t.timeout == Max(0, timeout - 1)
          else t.n > 0 && t.timeout == timeout)
  {}

  /** Ticks are what idle turns use up: with more ticks than idle turns a call does what it does with any
      other such number, and with no more it ends unfinished. */
  lemma {:induction false} FsmTimesOut(
      wire: seq<byte>, polls: seq<nat>, timeout: nat, more: nat, f: Fsm, lastRead: nat)
    requires Ok(f) && !f.finished && 0 < timeout <= more
    ensures IdleTurns(wire, polls, f) < timeout ==>
      FsmRun(wire, polls, timeout, f, lastRead) == FsmRun(wire, polls, more, f, lastRead)
    ensures IdleTurns(wire, polls, f) >= timeout ==> !FsmRun(wire, polls, timeout, f, lastRead).f.finished
    decreases |polls|
  {
    hide FsmTurn;
    if polls != [] {
      var t := FsmTurn(wire, polls[0], timeout, f);
      TurnIdles(wire, polls[0], timeout, f);
      TurnIdles(wire, polls[0], more, f);
      if t.f.finished {
        assert IdleTurns(wire[t.n..], polls[1..], t.f) == 0;
      } else if t.timeout != 0 {
        var last := if t.n > 0 then t.n else lastRead;
        FsmTimesOut(wire[t.n..], polls[1..], t.timeout, FsmTurn(wire, polls[0], more, f).timeout, t.f, last);
      }
    }
  }

  /** Without a tick a call makes a single turn. */
  lemma FsmNoTicks(wire: seq<byte>, polls: seq<nat>)
    requires polls != []
    ensures FsmRun(wire, polls, 0, START, 0).consumed == Min(1, Min(polls[0], |wire|))
  {}

  // ---------- The state machine on a message ----------

  /** How many bytes a turn takes at place `k` of a stream with the message from `n` on. */
  function Grab(n: nat, k: nat, available: nat): nat {
    Min(available, if n + 4 <= k < n + 68 then n + 68 - k else 1)
  }

  /** How far a call without time limit gets, and in how many turns it takes nothing. */
  datatype Pace = Pace(at: nat, idle: nat)

  function PaceOf(n: nat, total: nat, k: nat, polls: seq<nat>): Pace
    requires n + MESSAGE_SIZE <= total && k <= n + MESSAGE_SIZE
    decreases |polls|
  {
    if polls == [] || k == n + MESSAGE_SIZE then Pace(k, 0)
    else
      var g := Grab(n, k, Min(polls[0], total - k));
      var later := PaceOf(n, total, k + g, polls[1..]);
      later.(idle := later.idle + if g == 0 then 1 else 0)
  }

  /** The machine `k` bytes into noise and message. */
  predicate MachineAt(noise: seq<byte>, f: seq<byte>, k: nat, m: Fsm)
    requires |f| == FRAME_SIZE && k <= |noise| + MESSAGE_SIZE
  {
    var n := |noise|;
    if k <= n then InPrefix(m) && !m.finished
    else if k == n + 1 then m == START.(state := Prefix1)
    else if k == n + 2 then m == START.(state := Prefix2)
    else if k == n + 3 then m == START.(state := Prefix3)
    else m == Inside(Hex(f), k - n - 4)
  }

  lemma InHeader(m: Fsm, j: nat)
    requires Ok(m) && InPrefix(m) && !m.state.Prefix1? && 1 <= j <= 4
    ensures Bytes(m, HEADER[..j]) == m.(state :=
      if j == 1 then Prefix1 else if j == 2 then Prefix2 else if j == 3 then Prefix3 else Payload)
  {
    assert HEADER[..1] == [0x41] && HEADER[..2] == [0x41] + [0x41];
    assert HEADER[..3] == HEADER[..2] + [FIVE] && HEADER[..4] == HEADER[..3] + [FIVE];
    assert Bytes(m, []) == m && [] + [0x41] == [0x41];
    BytesSnoc(m, [], 0x41);
    BytesSnoc(m, HEADER[..1], 0x41);
    BytesSnoc(m, HEADER[..2], FIVE);
    BytesSnoc(m, HEADER[..3], FIVE);
  }

  lemma PrefixIsFresh(m: Fsm)
    requires Ok(m) && InPrefix(m)
    ensures !m.finished && m == START.(state := m.state)
  {}

  lemma MachineIsAt(noise: seq<byte>, f: seq<byte>, rest: seq<byte>, k: nat)
    requires StrTheorems.Quiet(noise) && TrailingAs(noise) % 2 == 0 && |f| == FRAME_SIZE
    requires k <= |noise| + MESSAGE_SIZE
    ensures k <= |noise + Encode(f) + rest|
    ensures MachineAt(noise, f, k, Bytes(START, (noise + Encode(f) + rest)[..k]))
  {
    hide Bytes, Step, Hex, TrailingAs, StrTheorems.Quiet;
    var n, wire := |noise|, noise + Encode(f) + rest;
    if k <= n {
      assert wire[..k] == noise[..k];
      QuietPrefix(noise, k);
      StaysInPrefix(noise[..k]);
      PrefixIsFresh(Bytes(START, noise[..k]));
    } else if k <= n + 3 {
      assert wire[..k] == noise + HEADER[..k - n];
      NoiseEndsEven(noise);
      BytesAppend(START, noise, HEADER[..k - n]);
      InHeader(Bytes(START, noise), k - n);
      PrefixIsFresh(Bytes(START, noise));
    } else {
      var tail := (Hex(f) + [CR, LF])[..k - n - 4];
      assert wire[..k] == noise + HEADER + tail;
      BytesAppend(START, noise + HEADER, tail);
      HeaderBehindNoise(noise);
      BytesInside(Hex(f), k - n - 4);
    }
  }

  lemma QuietPrefix(noise: seq<byte>, k: nat)
    requires StrTheorems.Quiet(noise) && k <= |noise|
    ensures StrTheorems.Quiet(noise[..k])
  {
    assert forall j: nat :: Str.HeaderAt(UpperAll(noise[..k]), j) ==> Str.HeaderAt(UpperAll(noise), j);
  }

  lemma NoiseEndsEven(noise: seq<byte>)
    requires StrTheorems.Quiet(noise) && TrailingAs(noise) % 2 == 0
    ensures InPrefix(Bytes(START, noise)) && !Bytes(START, noise).state.Prefix1?
  {
    StaysInPrefix(noise);
    PrefixRemembers(noise);
    hide TrailingAs, Bytes;
  }

  /** A turn takes what its place in the stream lets it take. */
  lemma TurnGrabs(noise: seq<byte>, f: seq<byte>, rest: seq<byte>, k: nat, poll: nat, timeout: nat)
    requires StrTheorems.Quiet(noise) && TrailingAs(noise) % 2 == 0 && |f| == FRAME_SIZE
    requires k < |noise| + MESSAGE_SIZE
    ensures k <= |noise + Encode(f) + rest|
    ensures var wire := noise + Encode(f) + rest; var m := Bytes(START, wire[..k]);
      && Ok(m) && !m.finished
      && var t, g := FsmTurn(wire[k..], poll, timeout, m), Grab(|noise|, k, Min(poll, |wire| - k));
      && t.n == g && k + g <= |noise| + MESSAGE_SIZE && t.f == Bytes(START, wire[..k + g])
      && (t.f.finished <==> k + g == |noise| + MESSAGE_SIZE)
      && t.timeout == if g == 0 then Max(0, timeout - 1) else timeout
  {
    hide TrailingAs, StrTheorems.Quiet, Bytes, Step, Encode, Hex;
    EncodedSize(f);
    var wire := noise + Encode(f) + rest;
    MachineIsAt(noise, f, rest, k);
    var m := Bytes(START, wire[..k]);
    TurnIsBytes(wire[k..], poll, timeout, m);
    var n := FsmTurn(wire[k..], poll, timeout, m).n;
    assert wire[..k + n] == wire[..k] + wire[k..][..n];
    BytesAppend(START, wire[..k], wire[k..][..n]);
    MachineIsAt(noise, f, rest, k + n);
  }

  lemma SmallGrab(n: nat, k: nat, available: nat)
    ensures k + Grab(n, k, available) <= n + 4 ==> Grab(n, k, available) <= 1
  {}

  /** What a call from place `k` on has to do with the pace of the answers. */
  predicate Fits(run: Run, p: Pace, timeout: nat, k: nat, n: nat, end: nat, lastRead: nat) {
    && k + run.consumed <= end
    && (p.idle < timeout ==> k + run.consumed == p.at)
    && (run.f.finished <==> p.idle < timeout && p.at == end)
    && (k + run.consumed <= n + 4 ==> run.lastRead == if run.consumed > 0 then 1 else lastRead)
  }

  lemma PaceStep(n: nat, total: nat, k: nat, polls: seq<nat>)
    requires n + MESSAGE_SIZE <= total && k <= n + MESSAGE_SIZE
    ensures k < n + MESSAGE_SIZE && polls != [] ==>
      var g := Grab(n, k, Min(polls[0], total - k));
      var later := PaceOf(n, total, k + g, polls[1..]);
      PaceOf(n, total, k, polls) == Pace(later.at, later.idle + if g == 0 then 1 else 0)
    ensures k == n + MESSAGE_SIZE || polls == [] ==> PaceOf(n, total, k, polls) == Pace(k, 0)
  {}

  lemma RunStep(wire: seq<byte>, polls: seq<nat>, timeout: nat, m: Fsm, lastRead: nat)
    requires Ok(m) && !m.finished
    ensures polls == [] ==> FsmRun(wire, polls, timeout, m, lastRead) == Run(m, 0, lastRead)
    ensures polls != [] ==>
      var t := FsmTurn(wire, polls[0], timeout, m);
      var last := if t.n > 0 then t.n else lastRead;
      FsmRun(wire, polls, timeout, m, lastRead)
        == if t.f.finished || t.timeout == 0 then Run(t.f, t.n, last)
           else
             var later := FsmRun(wire[t.n..], polls[1..], t.timeout, t.f, last);
             Run(later.f, t.n + later.consumed, later.lastRead)
  {
    hide FsmTurn;
  }

  lemma {:induction false} PacedFrom(
      noise: seq<byte>, f: seq<byte>, rest: seq<byte>, k: nat, polls: seq<nat>, timeout: nat, lastRead: nat)
    requires StrTheorems.Quiet(noise) && TrailingAs(noise) % 2 == 0 && |f| == FRAME_SIZE
    requires k < |noise| + MESSAGE_SIZE && timeout > 0
    ensures |noise + Encode(f) + rest| == |noise| + MESSAGE_SIZE + |rest|
    ensures var wire := noise + Encode(f) + rest; var m := Bytes(START, wire[..k]);
      && Ok(m) && !m.finished
      && Fits(FsmRun(wire[k..], polls, timeout, m, lastRead), PaceOf(|noise|, |wire|, k, polls),
              timeout, k, |noise|, |noise| + MESSAGE_SIZE, lastRead)
    decreases |polls|
  {
    hide TrailingAs, StrTheorems.Quiet, Bytes, FsmTurn, FsmRun, PaceOf, Grab, Encode;
    EncodedSize(f);
    var wire := noise + Encode(f) + rest;
    var m := Bytes(START, wire[..k]);
    TurnGrabs(noise, f, rest, k, 0, timeout);
    RunStep(wire[k..], polls, timeout, m, lastRead);
    PaceStep(|noise|, |wire|, k, polls);
    if polls != [] {
      TurnGrabs(noise, f, rest, k, polls[0], timeout);
      var t := FsmTurn(wire[k..], polls[0], timeout, m);
      SmallGrab(|noise|, k, Min(polls[0], |wire| - k));
      assert wire[k..][t.n..] == wire[k + t.n..];
      if k + t.n == |noise| + MESSAGE_SIZE {
        PaceStep(|noise|, |wire|, k + t.n, polls[1..]);
      } else if t.timeout != 0 {
        PacedFrom(noise, f, rest, k + t.n, polls[1..], t.timeout, if t.n > 0 then t.n else lastRead);
      }
    }
  }

  /** A message behind noise that ends in an even number of A's, with any ticks at all: the call finishes
      exactly when the answers bring it to the message's end in fewer idle turns than it has ticks; with so
      few it gets just as far as they let it. Within the message it returns how much of it it has read, and
      before that how much of a prefix it takes the noise for; and the digits are in the caller's buffer as
      soon as all of them have come. */
  lemma MessageInTime(
      noise: seq<byte>, f: seq<byte>, rest: seq<byte>, out: seq<byte>, polls: seq<nat>, timeout: nat)
    requires StrTheorems.Quiet(noise) && TrailingAs(noise) % 2 == 0 && |f| == FRAME_SIZE
    requires timeout > 0 && |out| >= TEXT_SIZE
    ensures var n := |noise|;
      var run := FsmRun(noise + Encode(f) + rest, polls, timeout, START, 0);
      var p := PaceOf(n, n + MESSAGE_SIZE + |rest|, 0, polls);
      && run.consumed <= n + MESSAGE_SIZE
      && (run.f.finished <==> p.idle < timeout && p.at == n + MESSAGE_SIZE)
      && (p.idle < timeout ==> run.consumed == p.at)
      && (run.consumed > n ==> ReturnedCount(run) == run.consumed - n)
      && (run.consumed <= n ==>
            var begun := Begun(noise[..run.consumed]);
            ReturnedCount(run) == if begun > 0 then begun else if run.consumed > 0 then 1 else 0)
      && ReturnedBuffer(out, run.f) == if run.consumed >= n + 68 then Hex(f) + out[TEXT_SIZE..] else out
  {
    hide TrailingAs, StrTheorems.Quiet, Bytes, FsmRun, PaceOf, Encode, Hex;
    var wire := noise + Encode(f) + rest;
    EncodedSize(f);
    PacedFrom(noise, f, rest, 0, polls, timeout, 0);
    assert wire[..0] == [] && wire[0..] == wire;
    NothingYet();
    var run := FsmRun(wire, polls, timeout, START, 0);
    RunIsBytes(wire, polls, timeout, START, 0);
    MachineIsAt(noise, f, rest, run.consumed);
    PrefixBuffer(out, run.f);
    if run.consumed <= |noise| {
      assert wire[..run.consumed] == noise[..run.consumed];
      QuietPrefix(noise, run.consumed);
      CounterIsBegun(noise[..run.consumed]);
    }
  }

  /** How much of a prefix the machine takes the end of noise for. */
  function Begun(s: seq<byte>): nat {
    if TrailingAs(s) % 2 == 1 then 1
    else if TrailingAs(s) > 0 then 2
    else if s != [] && s[|s| - 1] == FIVE && TrailingAs(s[..|s| - 1]) % 2 == 0 && TrailingAs(s[..|s| - 1]) > 0 then 3
    else 0
  }

  lemma {:induction false} CounterIsBegun(s: seq<byte>)
    requires StrTheorems.Quiet(s)
    ensures InPrefix(Bytes(START, s)) && Counter(Bytes(START, s)) == Begun(s)
    decreases |s|
  {
    StaysInPrefix(s);
    hide Bytes, StrTheorems.Quiet;
    if s == [] {
      NothingYet();
    } else {
      var n := |s| - 1;
      assert s == s[..n] + [s[n]];
      QuietPrefix(s, n);
      CounterIsBegun(s[..n]);
      PrefixIsFresh(Bytes(START, s[..n]));
      BytesSnoc(START, s[..n], s[n]);
    }
  }

  lemma NothingYet()
    ensures Bytes(START, []) == START
  {}

  lemma PrefixBuffer(out: seq<byte>, m: Fsm)
    requires Ok(m) && |out| >= TEXT_SIZE
    ensures InPrefix(m) || m.state.Payload? ==> ReturnedBuffer(out, m) == out
  {}

  // ---------- The string receiver ----------

  /** The turns for which nothing has come, before one that delivers. */
  function StringIdles(wire: seq<byte>, polls: seq<nat>, buffer: seq<byte>): nat
    requires Str.BufferOk(buffer)
    decreases |polls|
  {
    if polls == [] then 0
    else
      var n := Min(Min(polls[0], |wire|), Str.READ_SIZE);
      if n == 0 then 1 + StringIdles(wire, polls[1..], buffer)
      else
        var d := Str.Feed(buffer, UpperAll(wire[..n]));
        if d.frames != [] then 0 else StringIdles(wire[n..], polls[1..], d.rest)
  }

  /** A call times out exactly when as many idle turns as it has ticks come before one that delivers; with
      the ticks that stand for no limit it never does; and without any it makes a single turn. */
  lemma {:induction false} StringTimesOutIff(wire: seq<byte>, polls: seq<nat>, timeout: nat, buffer: seq<byte>)
    requires Str.BufferOk(buffer) && timeout <= Str.WAIT_FOREVER
    ensures timeout > 0 ==>
      (Str.ReceiveRun(wire, polls, timeout, buffer).outcome.TimedOut? <==>
        timeout != Str.WAIT_FOREVER && StringIdles(wire, polls, buffer) >= timeout)
    ensures timeout == 0 && polls != [] ==>
      var run := Str.ReceiveRun(wire, polls, timeout, buffer);
      !run.outcome.Waiting? && run.consumed == Min(Min(polls[0], |wire|), Str.READ_SIZE)
    decreases |polls|
  {
    hide Str.Feed, Str.BufferOk, Str.Short, UpperAll;
    if polls != [] && timeout > 0 {
      var t := Str.ReceiveTurn(wire, polls[0], timeout, buffer);
      if t.frames == [] && t.timeout != 0 {
        assert wire[0..] == wire;
        StringTimesOutIff(wire[t.n..], polls[1..], t.timeout, t.rest);
      }
    }
  }
}
