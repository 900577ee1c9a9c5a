/**
How long an AVDS call goes on: exactly when it completes in time, exactly when it times out, and what a
call that has timed out leaves behind.
 */
module AvdsTiming {
  import opened Integers
  import opened AvdsReceiver
  import opened AvdsTheorems

  // ---------- Any stream ----------

  /** Whether a turn reads anything: of the two length bytes both must have come. */
  predicate Reads(phase: Phase, available: nat) {
    available >= if phase.PacketLength? then 2 else 1
  }

  /** The turns that read nothing before the call is completed or refused. */
  function EmptyTurns(wire: seq<uint8>, polls: seq<nat>, a: Avds, room: bool): nat
    requires Ok(a) && !a.phase.LengthLow?
    decreases |polls|
  {
    if polls == [] || Final(a) then 0
    else
      var t := AvdsTurn(wire, polls[0], 0, a, room);
      (if Reads(a.phase, Min(polls[0], |wire|)) then 0 else 1) + EmptyTurns(wire[t.n..], polls[1..], t.a, room)
  }

  lemma TurnReads(wire: seq<uint8>, poll: nat, timeout: nat, a: Avds, room: bool)
    requires Ok(a) && !Final(a) && !a.phase.LengthLow?
    ensures var t, s := AvdsTurn(wire, poll, timeout, a, room), AvdsTurn(wire, poll, 0, a, room);
      && t.a == s.a && t.n == s.n
      && (if Reads(a.phase, Min(poll, |wire|)) then t.n > 0 && t.timeout == timeout
          else t.n == 0 && t.a == a && t.timeout == Max(0, timeout - 1))
  {}

  /** A call times out exactly when as many turns as it has ticks read nothing before it is completed or
      refused. */
  lemma {:induction false} TimesOutIff(
      wire: seq<uint8>, polls: seq<nat>, timeout: nat, a: Avds, room: bool, lastRead: nat)
    requires Ok(a) && !Final(a) && !a.phase.LengthLow? && timeout > 0
    ensures AvdsRun(wire, polls, timeout, a, room, lastRead).outcome.TimedOut?
      <==> EmptyTurns(wire, polls, a, room) >= timeout
    decreases |polls|
  {
    hide AvdsTurn, Ok, Reads;
    if polls != [] {
      var t := AvdsTurn(wire, polls[0], timeout, a, room);
      TurnReads(wire, polls[0], timeout, a, room);
      if !Final(t.a) && t.timeout != 0 {
        TimesOutIff(wire[t.n..], polls[1..], t.timeout, t.a, room, if t.n > 0 then t.n else lastRead);
      }
    }
  }

  /** Without a tick a call makes a single turn. */
  lemma NoTicks(wire: seq<uint8>, polls: seq<nat>, out: seq<uint8>, room: bool)
    requires |out| >= 6 && polls != []
    ensures var run := AvdsRun(wire, polls, 0, Start(out), room, 0);
      run.outcome.TimedOut? && run.consumed == Min(1, Min(polls[0], |wire|))
  {}

  // ---------- A packet behind noise ----------

  /** How many bytes a turn takes at place `k` of a stream with the packet from `n` to `end`. */
  function Grab(n: nat, end: nat, k: nat, available: nat): nat
    requires k <= end
  {
    if k < n + 2 then Min(1, available)
    else if k == n + 2 then (if available >= 2 then 2 else 0)
    else Min(end - k, available)
  }

  /** How far a call without time limit gets, and in how many turns it takes nothing. */
  datatype Pace = Pace(at: nat, empty: nat)

  function PaceOf(n: nat, end: nat, total: nat, k: nat, polls: seq<nat>): Pace
    requires n + 4 <= end <= total && k <= end
    decreases |polls|
  {
    if polls == [] || k == end then Pace(k, 0)
    else
      var g := Grab(n, end, k, Min(polls[0], total - k));
      var later := PaceOf(n, end, total, k + g, polls[1..]);
      later.(empty := later.empty + if g == 0 then 1 else 0)
  }

  /** The machine `k` bytes into noise and packet. */
  lemma PhaseAt(
      noise: seq<uint8>, high: uint8, low: uint8, data: seq<uint8>, rest: seq<uint8>, k: nat, out: seq<uint8>)
    requires NoPair(noise) && TrailingPreambles(noise) % 2 == 0 && |out| >= 6
    requires Packet(high, low, data) && k <= |noise| + 4 + |data|
    ensures var n, a := |noise|, Bytes(Start(out), Stream(noise, high, low, data, rest)[..k], true);
      && (k < n + 2 ==> a.phase == Preamble1 || a.phase == Preamble2)
      && (k == n + 1 ==> a.phase == Preamble2)
      && (k == n + 2 ==> a == Avds(PacketLength, [PREAMBLE1, PREAMBLE2] + out[2..]))
      && (k >= n + 4 ==> a == Inside(high, low, data, k - n - 4, out))
  {
    hide Bytes, TakeLength, Step, Packet, NoPair, TrailingPreambles, Inside, Stream, Head;
    var n, wire := |noise|, Stream(noise, high, low, data, rest);
    StreamParts(noise, high, low, data, rest, k);
    if k < n + 2 {
      PreambleAt(noise, k, out);
    } else if k == n + 2 {
      PreambleBehindNoise(noise, out, true);
    } else if k >= n + 4 {
      MachineOnPacket(noise, high, low, data, k - n - 4, out);
    }
  }

  lemma StreamParts(noise: seq<uint8>, high: uint8, low: uint8, data: seq<uint8>, rest: seq<uint8>, k: nat)
    requires k <= |noise| + 4 + |data|
    ensures var n, taken := |noise|, Stream(noise, high, low, data, rest)[..k];
      && (k <= n + 1 ==> taken == (noise + [PREAMBLE1])[..k])
      && (k == n + 2 ==> taken == noise + [PREAMBLE1, PREAMBLE2])
      && (k >= n + 4 ==> taken == noise + Head(high, low) + data[..k - n - 4])
  {
    var stem := noise + Head(high, low);
    assert Stream(noise, high, low, data, rest) == stem + (data + rest);
    if k >= |noise| + 4 { TakeFrom(stem, data, rest, k - |noise| - 4); }
  }

  lemma PreambleAt(noise: seq<uint8>, k: nat, out: seq<uint8>)
    requires NoPair(noise) && TrailingPreambles(noise) % 2 == 0 && |out| >= 6 && k <= |noise| + 1
    ensures var a := Bytes(Start(out), (noise + [PREAMBLE1])[..k], true);
      if k == |noise| + 1 then a.phase == Preamble2 else a.phase == Preamble1 || a.phase == Preamble2
  {
    hide Bytes, NoPair, TrailingPreambles;
    NoisePrefix(noise, k);
    MachineOnNoise((noise + [PREAMBLE1])[..k], out, true);
  }

  lemma NoisePrefix(noise: seq<uint8>, k: nat)
    requires NoPair(noise) && k <= |noise| + 1
    ensures NoPair((noise + [PREAMBLE1])[..k])
    ensures k == |noise| + 1 ==> TrailingPreambles((noise + [PREAMBLE1])[..k]) == 1 + TrailingPreambles(noise)
  {
    var s := (noise + [PREAMBLE1])[..k];
    forall i | 0 < i < |s| ensures !(s[i - 1] == PREAMBLE1 && s[i] == PREAMBLE2) {
      if i < |noise| { assert s[i - 1] == noise[i - 1] && s[i] == noise[i]; }
    }
    hide NoPair;
    if k == |noise| + 1 { assert s[..|noise|] == noise; }
  }

  function Stream(noise: seq<uint8>, high: uint8, low: uint8, data: seq<uint8>, rest: seq<uint8>): (w: seq<uint8>)
    ensures |w| == |noise| + 4 + |data| + |rest|
  {
    noise + (Head(high, low) + data) + rest
  }

  /** A turn takes what its place in the stream lets it take. */
  lemma TurnGrabs(
      noise: seq<uint8>, high: uint8, low: uint8, data: seq<uint8>, rest: seq<uint8>, out: seq<uint8>, k: nat,
      poll: nat, timeout: nat)
    requires NoPair(noise) && TrailingPreambles(noise) % 2 == 0 && |out| >= 6
    requires Packet(high, low, data) && k < |noise| + 4 + |data| && k != |noise| + 3
    ensures var wire := Stream(noise, high, low, data, rest);
      var a, end := Bytes(Start(out), wire[..k], true), |noise| + 4 + |data|;
      && Ok(a) && !Final(a) && !a.phase.LengthLow?
      && var t, g := AvdsTurn(wire[k..], poll, timeout, a, true), Grab(|noise|, end, k, Min(poll, |wire| - k));
      && t.n == g && k + g <= end && t.a == Bytes(Start(out), wire[..k + g], true)
      && t.timeout == if g == 0 then Max(0, timeout - 1) else timeout
  {
    hide NoPair, TrailingPreambles, Packet, Bytes, Step, TakeLength;
    var wire := Stream(noise, high, low, data, rest);
    PhaseAt(noise, high, low, data, rest, k, out);
    var a := Bytes(Start(out), wire[..k], true);
    TurnIsBytes(wire[k..], poll, timeout, a, true);
    BytesFrom(Start(out), wire, k, AvdsTurn(wire[k..], poll, timeout, a, true).n, true);
  }

  /** What a call from place `k` on has to do with the pace of the answers. */
  predicate Fits(run: Run, p: Pace, timeout: nat, k: nat, n: nat, end: nat, lastRead: nat) {
    && run.outcome == (if p.empty >= timeout then TimedOut else if p.at == end then Completed else Waiting)
    && (p.empty < timeout ==> k + run.consumed == p.at)
    && k + run.consumed <= end && k + run.consumed != n + 3
    && (k + run.consumed <= n + 2 ==> run.lastRead == if run.consumed > 0 then 1 else lastRead)
  }

  lemma {:induction false} PacedFrom(
      noise: seq<uint8>, high: uint8, low: uint8, data: seq<uint8>, rest: seq<uint8>, out: seq<uint8>, k: nat,
      polls: seq<nat>, timeout: nat, lastRead: nat)
    requires NoPair(noise) && TrailingPreambles(noise) % 2 == 0 && |out| >= 6
    requires Packet(high, low, data) && k < |noise| + 4 + |data| && k != |noise| + 3 && timeout > 0
    ensures var wire := Stream(noise, high, low, data, rest);
      var a, end := Bytes(Start(out), wire[..k], true), |noise| + 4 + |data|;
      && Ok(a) && !Final(a) && !a.phase.LengthLow?
      && Fits(AvdsRun(wire[k..], polls, timeout, a, true, lastRead), PaceOf(|noise|, end, |wire|, k, polls),
              timeout, k, |noise|, end, lastRead)
    decreases |polls|
  {
    hide NoPair, TrailingPreambles, Packet, Bytes, AvdsTurn, AvdsRun, PaceOf, Grab;
    var wire := Stream(noise, high, low, data, rest);
    var a, end := Bytes(Start(out), wire[..k], true), |noise| + 4 + |data|;
    TurnGrabs(noise, high, low, data, rest, out, k, 0, timeout);
    if polls == [] {
      NothingRead(wire[k..], timeout, a, lastRead, |noise|, end, |wire|, k);
    } else {
      TurnGrabs(noise, high, low, data, rest, out, k, polls[0], timeout);
      var t := AvdsTurn(wire[k..], polls[0], timeout, a, true);
      var last := if t.n > 0 then t.n else lastRead;
      GrabJumps(|noise|, end, k, Min(polls[0], |wire| - k));
      FinalAtEnd(noise, high, low, data, rest, out, k + t.n);
      assert wire[k..][t.n..] == wire[k + t.n..];
      RunStep(wire[k..], polls, timeout, a, true, lastRead);
      PaceStep(|noise|, end, |wire|, k, polls);
      if k + t.n == end {
        PaceEnds(|noise|, end, |wire|, polls[1..]);
      } else if t.timeout != 0 {
        PacedFrom(noise, high, low, data, rest, out, k + t.n, polls[1..], t.timeout, last);
      }
    }
  }

  lemma NothingRead(
      wire: seq<uint8>, timeout: nat, a: Avds, lastRead: nat, n: nat, end: nat, total: nat, k: nat)
    requires Ok(a) && !Final(a) && !a.phase.LengthLow? && n + 4 <= end <= total && k <= end
    ensures AvdsRun(wire, [], timeout, a, true, lastRead) == Run(Waiting, a, 0, lastRead)
    ensures PaceOf(n, end, total, k, []) == Pace(k, 0)
  {}

  lemma PaceStep(n: nat, end: nat, total: nat, k: nat, polls: seq<nat>)
    requires n + 4 <= end <= total && k <= end && polls != []
    ensures k < end ==>
      var g := Grab(n, end, k, Min(polls[0], total - k));
      var later := PaceOf(n, end, total, k + g, polls[1..]);
      PaceOf(n, end, total, k, polls) == Pace(later.at, later.empty + if g == 0 then 1 else 0)
  {}

  lemma PaceEnds(n: nat, end: nat, total: nat, polls: seq<nat>)
    requires n + 4 <= end <= total
    ensures PaceOf(n, end, total, end, polls) == Pace(end, 0)
  {}

  lemma GrabJumps(n: nat, end: nat, k: nat, available: nat)
    requires k <= end && k != n + 3
    ensures k + Grab(n, end, k, available) != n + 3
    ensures k + Grab(n, end, k, available) <= n + 2 ==> Grab(n, end, k, available) <= 1
  {}

  /** The machine ends just at the packet's end. */
  lemma FinalAtEnd(
      noise: seq<uint8>, high: uint8, low: uint8, data: seq<uint8>, rest: seq<uint8>, out: seq<uint8>, k: nat)
    requires NoPair(noise) && TrailingPreambles(noise) % 2 == 0 && |out| >= 6
    requires Packet(high, low, data) && k <= |noise| + 4 + |data| && k != |noise| + 3
    ensures var a := Bytes(Start(out), Stream(noise, high, low, data, rest)[..k], true);
      !a.phase.Failed? && (a.phase.End? <==> k == |noise| + 4 + |data|)
  {
    hide NoPair, TrailingPreambles, Packet, Bytes;
    PhaseAt(noise, high, low, data, rest, k, out);
  }

  /** A packet behind noise, with any ticks at all: how the call ends and how far it gets is decided by
      the answers alone. It times out exactly when so many turns take nothing before the packet's end; if
      fewer do, it gets as far as the answers let it, and is complete exactly when that is the end. */
  lemma PacketInTime(
      noise: seq<uint8>, high: uint8, low: uint8, data: seq<uint8>, rest: seq<uint8>, out: seq<uint8>,
      polls: seq<nat>, timeout: nat)
    requires NoPair(noise) && TrailingPreambles(noise) % 2 == 0 && |out| >= 6
    requires Packet(high, low, data) && timeout > 0
    ensures var end := |noise| + 4 + |data|;
      var run := AvdsRun(noise + (Head(high, low) + data) + rest, polls, timeout, Start(out), true, 0);
      var p := PaceOf(|noise|, end, end + |rest|, 0, polls);
      && run.outcome == (if p.empty >= timeout then TimedOut else if p.at == end then Completed else Waiting)
      && (p.empty < timeout ==> run.consumed == p.at)
      && (run.outcome.Completed? ==> ReturnedCount(run) == 4 + |data|)
  {
    hide NoPair, TrailingPreambles, Packet, AvdsRun, PaceOf;
    var wire := Stream(noise, high, low, data, rest);
    PacedFrom(noise, high, low, data, rest, out, 0, polls, timeout, 0);
    NoBytes(Start(out), true);
    assert wire[..0] == [] && wire[0..] == wire;
    PacketArrivesVerbatim(noise, high, low, data, rest, out, |out|, polls, timeout);
  }

  /** What a call leaves that has timed out in the packet: the count is what it has read of it, and the
      caller's buffer starts with just that, the data only if there is room for them. Before, the count is
      1 if anything was read. */
  lemma PartialPacket(
      noise: seq<uint8>, high: uint8, low: uint8, data: seq<uint8>, rest: seq<uint8>, out: seq<uint8>,
      length: nat, polls: seq<nat>, timeout: nat)
    requires NoPair(noise) && TrailingPreambles(noise) % 2 == 0
    requires Packet(high, low, data) && 6 <= length <= |out| && timeout > 0
    requires AvdsRun(noise + (Head(high, low) + data) + rest, polls, timeout, Start(out), true, 0).outcome.TimedOut?
    ensures var run := AvdsRun(noise + (Head(high, low) + data) + rest, polls, timeout, Start(out), true, 0);
      var n, packet := |noise|, Head(high, low) + data;
      && run.consumed < n + |packet|
      && (run.consumed >= n + 2 ==>
            && ReturnedCount(run) == run.consumed - n
            && var got := if run.consumed - n <= length then run.consumed - n else 4;
            && ReturnedBuffer(run, length) == packet[..got] + out[got..])
      && (run.consumed < n + 2 ==> ReturnedCount(run) == if run.consumed > 0 then 1 else 0)
  {
    hide NoPair, TrailingPreambles, Packet, AvdsRun, PaceOf, Bytes;
    var wire := Stream(noise, high, low, data, rest);
    var run := AvdsRun(wire, polls, timeout, Start(out), true, 0);
    PacedFrom(noise, high, low, data, rest, out, 0, polls, timeout, 0);
    NoBytes(Start(out), true);
    assert wire[..0] == [] && wire[0..] == wire;
    RunIsBytes(wire, polls, timeout, Start(out), true, 0);
    EndIsCompleted(wire, polls, timeout, Start(out), true, 0);
    FinalAtEnd(noise, high, low, data, rest, out, run.consumed);
    PhaseAt(noise, high, low, data, rest, run.consumed, out);
    if run.consumed >= |noise| + 2 {
      PartialBuffer(high, low, data, out, run, length, run.consumed - |noise|);
    }
  }

  lemma PartialBuffer(high: uint8, low: uint8, data: seq<uint8>, out: seq<uint8>, run: Run, length: nat, j: nat)
    requires 6 <= length <= |out| && run.outcome.TimedOut? && Ok(run.a) && j < 4 + |data|
    requires (j == 2 && run.a == Avds(PacketLength, [PREAMBLE1, PREAMBLE2] + out[2..]))
          || (j >= 4 && run.a == Inside(high, low, data, j - 4, out))
    ensures ReturnedCount(run) == j
    ensures var got := if j <= length then j else 4;
      ReturnedBuffer(run, length) == (Head(high, low) + data)[..got] + out[got..]
  {}
}
