/**
What the AVDS receiver promises over whole calls: a packet behind noise arrives verbatim however the
stream is cut into reads, and when the preamble is found at all.
 */
module AvdsTheorems {
  import opened AvdsReceiver

  /** No AA directly in front of a 55. */
  predicate NoPair(s: seq<uint8>) {
    forall i :: 0 < i < |s| ==> !(s[i - 1] == PREAMBLE1 && s[i] == PREAMBLE2)
  }

  /** How many AA bytes a stream ends in. */
  function TrailingPreambles(s: seq<uint8>): nat {
    if s == [] || s[|s| - 1] != PREAMBLE1 then 0 else 1 + TrailingPreambles(s[..|s| - 1])
  }

  function Start(out: seq<uint8>): Avds {
    Avds(Preamble1, out)
  }

  lemma BytesSnoc(a: Avds, s: seq<uint8>, b: uint8, room: bool)
    requires Ok(a)
    ensures var r := Bytes(a, s, room); Bytes(a, s + [b], room) == if Final(r) then r else Step(r, b, room)
  {
    BytesAppend(a, s, [b], room);
    var r := Bytes(a, s, room);
    if !Final(r) {
      assert Bytes(Step(r, b, room), [], room) == Step(r, b, room);
    }
  }

  lemma NoBytes(a: Avds, room: bool)
    requires Ok(a)
    ensures Bytes(a, [], room) == a
  {}

  /** Behind noise without a pair the machine waits for the first preamble byte or the second,
      according to whether the noise ends in an even or an odd number of AA bytes. */
  lemma {:induction false} MachineOnNoise(s: seq<uint8>, out: seq<uint8>, room: bool)
    requires NoPair(s) && |out| >= 6
    ensures var a := Bytes(Start(out), s, room);
      a.phase == (if TrailingPreambles(s) % 2 == 0 then Preamble1 else Preamble2)
      && a.out[1..] == out[1..] && (a.phase.Preamble2? ==> a.out[0] == PREAMBLE1)
    decreases |s|
  {
    hide Bytes;
    if s == [] {
      NoBytes(Start(out), room);
    } else {
      var n := |s| - 1;
      assert s == s[..n] + [s[n]];
      MachineOnNoise(s[..n], out, room);
      BytesSnoc(Start(out), s[..n], s[n], room);
      if TrailingPreambles(s[..n]) > 0 {
        assert s[..n][n - 1] == PREAMBLE1;
      }
    }
  }

  /** The preamble behind the noise is taken exactly when the noise ends in an even number of AA. */
  lemma PreambleBehindNoise(noise: seq<uint8>, out: seq<uint8>, room: bool)
    requires NoPair(noise) && |out| >= 6
    ensures var a := Bytes(Start(out), noise + [PREAMBLE1, PREAMBLE2], room);
      if TrailingPreambles(noise) % 2 == 0
      then a == Avds(PacketLength, [PREAMBLE1, PREAMBLE2] + out[2..])
      else a.phase == Preamble1
  {
    MachineOnNoise(noise, out, room);
    var a0 := Bytes(Start(out), noise, room);
    assert noise + [PREAMBLE1, PREAMBLE2] == (noise + [PREAMBLE1]) + [PREAMBLE2];
    BytesSnoc(Start(out), noise, PREAMBLE1, room);
    BytesSnoc(Start(out), noise + [PREAMBLE1], PREAMBLE2, room);
    assert forall i :: 1 <= i < |out| ==> a0.out[i] == a0.out[1..][i - 1] == out[1..][i - 1] == out[i];
  }

  /** A packet: the preamble, the length in network order, and the bytes it announces. */
  function Head(high: uint8, low: uint8): seq<uint8> {
    [PREAMBLE1, PREAMBLE2, high, low]
  }

  predicate Packet(high: uint8, low: uint8, data: seq<uint8>) {
    high * 256 + low < MAX_PAYLOAD_SIZE && |data| == high * 256 + low + 2
  }

  lemma LengthBehindNoise(noise: seq<uint8>, high: uint8, low: uint8, out: seq<uint8>, room: bool)
    requires NoPair(noise) && TrailingPreambles(noise) % 2 == 0 && |out| >= 6
    ensures Bytes(Start(out), noise + Head(high, low), room)
      == TakeLength(Avds(PacketLength, [PREAMBLE1, PREAMBLE2] + out[2..]), high, low, room)
  {
    PreambleBehindNoise(noise, out, room);
    var s2 := noise + [PREAMBLE1, PREAMBLE2];
    assert noise + Head(high, low) == s2 + [high] + [low];
    BytesSnoc(Start(out), s2, high, room);
    BytesSnoc(Start(out), s2 + [high], low, room);
  }

  lemma HeadWritten(high: uint8, low: uint8, out: seq<uint8>)
    requires |out| >= 6 && high * 256 + low < MAX_PAYLOAD_SIZE
    ensures TakeLength(Avds(PacketLength, [PREAMBLE1, PREAMBLE2] + out[2..]), high, low, true)
      == Avds(Payload(high * 256 + low + 2, []), Head(high, low) + out[4..])
  {
    assert high == 0;
  }

  /** The machine `k` bytes into the data of a packet whose length it has taken. */
  function Inside(high: uint8, low: uint8, data: seq<uint8>, k: nat, out: seq<uint8>): Avds
    requires |out| >= 6 && k <= |data|
  {
    Avds(if k < |data| then Payload(|data|, data[..k]) else End(|data|, data), Head(high, low) + out[4..])
  }

  lemma MachineOnPacket(noise: seq<uint8>, high: uint8, low: uint8, data: seq<uint8>, k: nat, out: seq<uint8>)
    requires NoPair(noise) && TrailingPreambles(noise) % 2 == 0 && |out| >= 6
    requires Packet(high, low, data) && k <= |data|
    ensures Bytes(Start(out), noise + Head(high, low) + data[..k], true) == Inside(high, low, data, k, out)
  {
    hide TakeLength, Step, NoPair, TrailingPreambles;
    LengthBehindNoise(noise, high, low, out, true);
    HeadWritten(high, low, out);
    var a := Bytes(Start(out), noise + Head(high, low), true);
    BytesAppend(Start(out), noise + Head(high, low), data[..k], true);
    if k > 0 {
      CollectIsBytes(a, data[..k], true);
      assert [] + data[..k] == data[..k];
      if k == |data| { assert data[..k] == data; }
    } else {
      assert data[..0] == [];
    }
  }

  /** A machine that holds a packet at the end of a call completes it, unless it started the call
      with a half-filled packet and no ticks. */
  lemma {:induction false} EndIsCompleted(
      wire: seq<uint8>, polls: seq<nat>, timeout: nat, a: Avds, room: bool, lastRead: nat)
    requires Ok(a) && !Final(a) && !a.phase.LengthLow? && (timeout > 0 || !a.phase.Payload?)
    ensures var run := AvdsRun(wire, polls, timeout, a, room, lastRead);
      run.outcome.Completed? <==> run.a.phase.End?
    decreases |polls|
  {
    if polls != [] {
      var t := AvdsTurn(wire, polls[0], timeout, a, room);
      if !Final(t.a) && t.timeout != 0 {
        EndIsCompleted(wire[t.n..], polls[1..], t.timeout, t.a, room, if t.n > 0 then t.n else lastRead);
      }
    }
  }

  /** Verbatim delivery. For every noise without a pair that ends in an even number of AA bytes,
      every packet, every arrival pattern and time limit, and whatever follows: the call completes
      exactly when it has read up to the packet's end, it never reads further, and then it returns
      n + 6 and the caller's buffer starts with the n + 6 bytes of the wire, if it has room for them. */
  lemma PacketArrivesVerbatim(
    noise: seq<uint8>, high: uint8, low: uint8, data: seq<uint8>, rest: seq<uint8>,
    out: seq<uint8>, length: nat, polls: seq<nat>, timeout: nat)
    requires NoPair(noise) && TrailingPreambles(noise) % 2 == 0
    requires Packet(high, low, data) && 6 <= length <= |out|
    ensures var packet := Head(high, low) + data;
      var run := AvdsRun(noise + packet + rest, polls, timeout, Start(out), true, 0);
      && run.consumed <= |noise| + |packet|
      && (run.outcome.Completed? <==> run.consumed == |noise| + |packet|)
      && (run.outcome.Completed? ==>
            && ReturnedCount(run) == |packet|
            && ReturnedBuffer(run, length)
              == if length >= |packet| then packet + out[|packet|..] else Head(high, low) + out[4..])
  {
    hide TakeLength, Step, AvdsTurn, NoPair, TrailingPreambles, Packet;
    var packet := Head(high, low) + data;
    var wire, total := noise + packet + rest, |noise| + |packet|;
    var run := AvdsRun(wire, polls, timeout, Start(out), true, 0);
    RunIsBytes(wire, polls, timeout, Start(out), true, 0);
    EndIsCompleted(wire, polls, timeout, Start(out), true, 0);
    PrefixOfPacket(noise, high, low, data, rest, total, out);
    if run.consumed <= total {
      PrefixOfPacket(noise, high, low, data, rest, run.consumed, out);
    }
    if run.outcome.Completed? {
      CopiedPacket(high, low, data, out, length);
    }
  }

  lemma PrefixOfPacket(
    noise: seq<uint8>, high: uint8, low: uint8, data: seq<uint8>, rest: seq<uint8>, k: nat, out: seq<uint8>)
    requires NoPair(noise) && TrailingPreambles(noise) % 2 == 0 && |out| >= 6
    requires Packet(high, low, data) && k <= |noise| + 4 + |data|
    ensures var a := Bytes(Start(out), (noise + (Head(high, low) + data) + rest)[..k], true);
      (a.phase.End? <==> k == |noise| + 4 + |data|)
      && (a.phase.End? ==> a == Avds(End(|data|, data), Head(high, low) + out[4..]))
  {
    hide Bytes, NoPair, TrailingPreambles, TakeLength;
    var n := |noise|;
    var wire := noise + (Head(high, low) + data) + rest;
    var stem := noise + Head(high, low);
    assert wire == stem + (data + rest);
    if k >= n + 4 {
      TakeFrom(stem, data, rest, k - n - 4);
      MachineOnPacket(noise, high, low, data, k - n - 4, out);
    } else {
      LengthBehindNoise(noise, high, low, out, true);
      HeadWritten(high, low, out);
      assert wire[..k] == stem[..k] && stem == stem[..k] + stem[k..];
      BytesAppend(Start(out), stem[..k], stem[k..], true);
      FinalStays(Bytes(Start(out), stem[..k], true), stem[k..], true);
    }
  }

  lemma TakeFrom(stem: seq<uint8>, data: seq<uint8>, rest: seq<uint8>, k: nat)
    requires k <= |data|
    ensures (stem + (data + rest))[..|stem| + k] == stem + data[..k]
  {}

  lemma FinalStays(a: Avds, s: seq<uint8>, room: bool)
    requires Ok(a)
    ensures Final(a) ==> Bytes(a, s, room) == a
  {}

  lemma CopiedPacket(high: uint8, low: uint8, data: seq<uint8>, out: seq<uint8>, length: nat)
    requires 6 <= length <= |out|
    ensures var a, packet := Head(high, low) + out[4..], Head(high, low) + data;
      length >= |packet| ==> a[..4] + data + a[4 + |data|..] == packet + out[|packet|..]
  {}

  /** A length of 64 or more, or one for which there is no room, leaves the machine refused. */
  lemma LengthRefused(noise: seq<uint8>, high: uint8, low: uint8, out: seq<uint8>, room: bool)
    requires NoPair(noise) && TrailingPreambles(noise) % 2 == 0 && |out| >= 6
    requires high * 256 + low >= MAX_PAYLOAD_SIZE || !room
    ensures var a := Bytes(Start(out), noise + Head(high, low), room);
      && a.phase.Failed?
      && (high * 256 + low >= MAX_PAYLOAD_SIZE ==> a.out == [PREAMBLE1, PREAMBLE2] + out[2..])
      && (high * 256 + low < MAX_PAYLOAD_SIZE ==> a.out == Head(high, low) + out[4..])
  {
    LengthBehindNoise(noise, high, low, out, room);
    if high * 256 + low < MAX_PAYLOAD_SIZE { assert high == 0; }
  }

  /** Before its length is complete no packet is refused. */
  lemma NotRefusedEarly(
    noise: seq<uint8>, high: uint8, low: uint8, rest: seq<uint8>, k: nat, out: seq<uint8>, room: bool)
    requires NoPair(noise) && TrailingPreambles(noise) % 2 == 0 && |out| >= 6 && k < |noise| + 4
    ensures k <= |noise + Head(high, low) + rest|
    ensures !Final(Bytes(Start(out), (noise + Head(high, low) + rest)[..k], room))
  {
    hide Bytes, NoPair, TrailingPreambles;
    var stem := noise + [PREAMBLE1, PREAMBLE2];
    var wire := noise + Head(high, low) + rest;
    assert wire == stem + ([high, low] + rest);
    PreambleBehindNoise(noise, out, room);
    if k <= |stem| {
      assert wire[..k] == stem[..k] && stem == stem[..k] + stem[k..];
      BytesAppend(Start(out), stem[..k], stem[k..], room);
      FinalStays(Bytes(Start(out), stem[..k], room), stem[k..], room);
    } else {
      assert wire[..k] == stem + [high];
      BytesSnoc(Start(out), stem, high, room);
    }
  }

  lemma {:induction false} FailedIsRefused(
      wire: seq<uint8>, polls: seq<nat>, timeout: nat, a: Avds, room: bool, lastRead: nat)
    requires Ok(a) && !Final(a) && !a.phase.LengthLow?
    ensures var run := AvdsRun(wire, polls, timeout, a, room, lastRead);
      run.outcome.Refused? <==> run.a.phase.Failed?
    decreases |polls|
  {
    if polls != [] {
      var t := AvdsTurn(wire, polls[0], timeout, a, room);
      if !Final(t.a) && t.timeout != 0 {
        FailedIsRefused(wire[t.n..], polls[1..], t.timeout, t.a, room, if t.n > 0 then t.n else lastRead);
      }
    }
  }

  /** An announced length of 64 or more, or one for which there is no room, is refused, for every
      arrival pattern and whatever follows: the call ends so exactly when it has read the length, it
      never reads further, and it returns 4; for a length of 64 or more only AA 55 has been written, otherwise
      the length too. */
  lemma LongPacketRefused(
      noise: seq<uint8>, high: uint8, low: uint8, rest: seq<uint8>,
      out: seq<uint8>, length: nat, polls: seq<nat>, timeout: nat, room: bool)
    requires NoPair(noise) && TrailingPreambles(noise) % 2 == 0 && 6 <= length <= |out|
    requires high * 256 + low >= MAX_PAYLOAD_SIZE || !room
    ensures var run := AvdsRun(noise + Head(high, low) + rest, polls, timeout, Start(out), room, 0);
      && run.consumed <= |noise| + 4
      && (run.outcome.Refused? <==> run.consumed == |noise| + 4)
      && (run.outcome.Refused? ==> ReturnedCount(run) == 4)
      && (run.outcome.Refused? && high * 256 + low >= MAX_PAYLOAD_SIZE ==>
            ReturnedBuffer(run, length) == [PREAMBLE1, PREAMBLE2] + out[2..])
      && (run.outcome.Refused? && high * 256 + low < MAX_PAYLOAD_SIZE ==>
            ReturnedBuffer(run, length) == Head(high, low) + out[4..])
  {
    hide TakeLength, Step, AvdsTurn, NoPair, TrailingPreambles, Bytes;
    var wire, total := noise + Head(high, low) + rest, |noise| + 4;
    var run := AvdsRun(wire, polls, timeout, Start(out), room, 0);
    RunIsBytes(wire, polls, timeout, Start(out), room, 0);
    FailedIsRefused(wire, polls, timeout, Start(out), room, 0);
    LengthRefused(noise, high, low, out, room);
    assert wire[..total] == noise + Head(high, low);
    if run.consumed < total {
      NotRefusedEarly(noise, high, low, rest, run.consumed, out, room);
    }
  }
}
