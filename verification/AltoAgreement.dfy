/**
When the byte state machine and the string-buffer receiver agree. The machine falls back to its
first prefix state on a third `A`, so behind noise it finds the message exactly when the noise ends
in an even number of A's; the string receiver always finds it.
 */
module AltoAgreement {
  import opened AltoCodec
  import Str = AltoStringReceiver
  import StrTheorems = AltoStringTheorems
  import opened AltoFsmReceiver

  /** How many A's, in either case, a stream ends in. */
  function TrailingAs(s: seq<byte>): nat {
    if s == [] || !IsA(s[|s| - 1]) then 0 else 1 + TrailingAs(s[..|s| - 1])
  }

  predicate InPrefix(f: Fsm) {
    f.state.Prefix0? || f.state.Prefix1? || f.state.Prefix2? || f.state.Prefix3?
  }

  /** What the prefix states remember of the stream. */
  predicate Remembers(s: seq<byte>, f: Fsm) {
    && (f.state.Prefix1? ==> TrailingAs(s) % 2 == 1)
    && (f.state.Prefix2? ==> TrailingAs(s) % 2 == 0 && TrailingAs(s) > 0)
    && (f.state.Prefix0? || f.state.Prefix3? ==> TrailingAs(s) == 0)
    && (f.state.Prefix3? ==> |s| >= 3 && IsA(s[|s| - 3]) && IsA(s[|s| - 2]) && s[|s| - 1] == FIVE)
  }

  lemma BytesSnoc(f: Fsm, s: seq<byte>, b: byte)
    requires Ok(f)
    ensures var r := Bytes(f, s); Bytes(f, s + [b]) == if r.finished then r else Step(r, b)
  {
    BytesAppend(f, s, [b]);
    var r := Bytes(f, s);
    if !r.finished {
      assert Bytes(Step(r, b), []) == Step(r, b);
    }
  }

  /** From the start, every prefix state remembers the end of the stream read so far. */
  lemma {:induction false} PrefixRemembers(s: seq<byte>)
    ensures Remembers(s, Bytes(START, s))
    decreases |s|
  {
    if s != [] {
      var n := |s| - 1;
      PrefixRemembers(s[..n]);
      assert s == s[..n] + [s[n]];
      BytesSnoc(START, s[..n], s[n]);
      if Bytes(START, s[..n]).state.Prefix2? {
        TwoTrailing(s[..n]);
      }
    }
  }

  lemma TwoTrailing(s: seq<byte>)
    requires TrailingAs(s) > 0 && TrailingAs(s) % 2 == 0
    ensures |s| >= 2 && IsA(s[|s| - 2]) && IsA(s[|s| - 1])
  {
    var t := s[..|s| - 1];
    assert TrailingAs(s) == 1 + TrailingAs(t);
  }

  /** The machine enters its payload state only on the last byte of an `AA55`, in either case. */
  lemma PayloadOnlyBehindHeader(s: seq<byte>, b: byte)
    requires !Bytes(START, s).state.Payload? && Bytes(START, s + [b]).state.Payload?
    ensures |s| >= 3 && Str.HeaderAt(UpperAll(s + [b]), |s| - 3)
  {
    hide Bytes, TrailingAs;
    BytesSnoc(START, s, b);
    PrefixRemembers(s);
    StepToPayload(Bytes(START, s), b);
    HeaderAtEnd(s, b);
  }

  lemma StepToPayload(f: Fsm, b: byte)
    requires Ok(f) && !f.state.Payload?
    requires (if f.finished then f else Step(f, b)).state.Payload?
    ensures f.state.Prefix3? && b == FIVE
  {}

  lemma HeaderAtEnd(s: seq<byte>, b: byte)
    requires |s| >= 3 && IsA(s[|s| - 3]) && IsA(s[|s| - 2]) && s[|s| - 1] == FIVE && b == FIVE
    ensures Str.HeaderAt(UpperAll(s + [b]), |s| - 3)
  {
    var u := UpperAll(s + [b]);
    assert u[|s| - 3] == 0x41 && u[|s| - 2] == 0x41 && u[|s| - 1] == FIVE && u[|s|] == FIVE;
  }

  /** In noise without a header the machine stays in its prefix states. */
  lemma {:induction false} StaysInPrefix(s: seq<byte>)
    requires Str.NoHeader(UpperAll(s))
    ensures InPrefix(Bytes(START, s))
    decreases |s|
  {
    if s != [] {
      var n := |s| - 1;
      var before := s[..n];
      assert forall j: nat :: Str.HeaderAt(UpperAll(before), j) ==> Str.HeaderAt(UpperAll(s), j);
      StaysInPrefix(before);
      assert s == before + [s[n]];
      BytesSnoc(START, before, s[n]);
      if Bytes(START, s).state.Payload? {
        PayloadOnlyBehindHeader(before, s[n]);
      }
    }
  }

  /** The header behind the noise is taken exactly when the noise ends in an even number of A's. */
  lemma HeaderBehindNoise(noise: seq<byte>)
    requires StrTheorems.Quiet(noise)
    ensures Bytes(START, noise + HEADER)
      == START.(state := if TrailingAs(noise) % 2 == 0 then Payload else Prefix0)
  {
    StaysInPrefix(noise);
    PrefixRemembers(noise);
    BytesAppend(START, noise, HEADER);
    FourBytes(Bytes(START, noise));
  }

  lemma FourBytes(f: Fsm)
    requires Ok(f) && InPrefix(f)
    ensures Bytes(f, HEADER) == f.(state := if f.state.Prefix1? then Prefix0 else Payload)
  {
    var f1 := Step(f, 0x41);
    var f2 := Step(f1, 0x41);
    var f3 := Step(f2, FIVE);
    assert HEADER[1..] == [0x41, FIVE, FIVE] && HEADER[1..][1..] == [FIVE, FIVE]
        && HEADER[1..][1..][1..] == [FIVE];
    assert Bytes(f3, [FIVE]) == Step(f3, FIVE);
    assert Bytes(f2, [FIVE, FIVE]) == Bytes(f3, [FIVE]);
    assert Bytes(f1, [0x41, FIVE, FIVE]) == Bytes(f2, [FIVE, FIVE]);
  }

  /** A byte advances the counter by one at most. */
  lemma {:induction false} CounterBound(f: Fsm, s: seq<byte>)
    requires Ok(f)
    ensures Counter(Bytes(f, s)) <= Counter(f) + |s|
    decreases |s|
  {
    if s != [] && !f.finished {
      CounterBound(Step(f, s[0]), s[1..]);
    }
  }

  /** The machine after `k` bytes behind a header that it has taken. */
  function Inside(payload: seq<byte>, k: nat): Fsm
    requires |payload| == TEXT_SIZE && k <= 66
  {
    if k < 64 then Fsm(Payload, payload[..k], false, false)
    else Fsm(if k == 64 then CrState else LfState, payload, k == 66, false)
  }

  lemma BytesInside(payload: seq<byte>, k: nat)
    requires |payload| == TEXT_SIZE && k <= 66
    ensures Ok(START.(state := Payload))
    ensures Bytes(START.(state := Payload), (payload + [CR, LF])[..k]) == Inside(payload, k)
  {
    var f, tail := START.(state := Payload), payload + [CR, LF];
    var head := if k < 64 then k else 64;
    if k > 0 {
      CollectIsBytes(f, payload[..head]);
      assert [] + payload[..head] == payload[..head];
    }
    assert tail[..head] == payload[..head];
    if k >= 65 {
      assert payload[..64] == payload;
      assert tail[..65] == tail[..64] + [CR];
      BytesSnoc(f, tail[..64], CR);
    }
    if k == 66 {
      assert tail[..66] == tail[..65] + [LF];
      BytesSnoc(f, tail[..65], LF);
    }
  }

  /** The machine on any beginning of a message behind quiet noise. */
  lemma MachineOnMessage(noise: seq<byte>, f: seq<byte>, k: nat)
    requires StrTheorems.Quiet(noise) && |f| == FRAME_SIZE && k <= |noise| + MESSAGE_SIZE
    ensures var r := Bytes(START, (noise + Encode(f))[..k]);
      (Counter(r) == MESSAGE_SIZE <==> TrailingAs(noise) % 2 == 0 && k == |noise| + MESSAGE_SIZE)
      && (Counter(r) == MESSAGE_SIZE ==> r.got == Hex(f))
  {
    hide TrailingAs, Step, Hex, Bytes, StrTheorems.Quiet;
    var n, s := |noise|, (noise + Encode(f))[..k];
    if k < n + 4 {
      BeforeMessage(noise, s);
    } else {
      var rest := (Hex(f) + [CR, LF])[..k - n - 4];
      assert s == (noise + HEADER) + rest;
      BytesAppend(START, noise + HEADER, rest);
      HeaderBehindNoise(noise);
      if TrailingAs(noise) % 2 == 0 {
        BytesInside(Hex(f), k - n - 4);
      } else {
        CounterBound(START, rest);
      }
    }
  }

  lemma BeforeMessage(noise: seq<byte>, s: seq<byte>)
    requires StrTheorems.Quiet(noise) && |s| < |noise| + 4
    requires s <= noise + HEADER
    ensures Counter(Bytes(START, s)) < MESSAGE_SIZE
  {
    if |s| <= |noise| {
      assert s == noise[..|s|];
      assert forall j: nat :: Str.HeaderAt(UpperAll(s), j) ==> Str.HeaderAt(UpperAll(noise), j);
      StaysInPrefix(s);
    } else {
      StaysInPrefix(noise);
      assert s == noise + s[|noise|..];
      BytesAppend(START, noise, s[|noise|..]);
      CounterBound(Bytes(START, noise), s[|noise|..]);
    }
  }

  /** Behind an even number of A's the machine finishes on the message's last byte. */
  lemma FinishesOnMessage(noise: seq<byte>, f: seq<byte>)
    requires StrTheorems.Quiet(noise) && |f| == FRAME_SIZE && TrailingAs(noise) % 2 == 0
    ensures Bytes(START, noise + Encode(f)).finished
  {
    hide TrailingAs, Step, Hex, Bytes, StrTheorems.Quiet;
    var tail := Hex(f) + [CR, LF];
    assert noise + Encode(f) == (noise + HEADER) + tail[..66];
    BytesAppend(START, noise + HEADER, tail[..66]);
    HeaderBehindNoise(noise);
    BytesInside(Hex(f), 66);
  }

  /** The state-machine call on an encoded frame behind quiet noise, for every arrival pattern and
      whatever follows: among the bytes up to the message's end it returns 70 exactly when the noise ends
      in an even number of A's and the whole message was read, and then it delivers the frame's 64 hex
      digits. In that case it never reads further. */
  lemma FsmReceives(noise: seq<byte>, f: seq<byte>, rest: seq<byte>, polls: seq<nat>, timeout: nat)
    requires StrTheorems.Quiet(noise) && |f| == FRAME_SIZE
    ensures var run := FsmRun(noise + Encode(f) + rest, polls, timeout, START, 0);
      && (TrailingAs(noise) % 2 == 0 ==> run.consumed <= |noise| + MESSAGE_SIZE)
      && (ReturnedCount(run) == MESSAGE_SIZE && run.consumed <= |noise| + MESSAGE_SIZE <==>
            TrailingAs(noise) % 2 == 0 && run.consumed == |noise| + MESSAGE_SIZE)
      && (ReturnedCount(run) == MESSAGE_SIZE && run.consumed <= |noise| + MESSAGE_SIZE ==> run.f.got == Hex(f))
  {
    hide TrailingAs, Step, Hex, Bytes, Encode, StrTheorems.Quiet, FsmRun;
    var stem, wire := noise + Encode(f), noise + Encode(f) + rest;
    var run := FsmRun(wire, polls, timeout, START, 0);
    RunIsBytes(wire, polls, timeout, START, 0);
    assert |stem| == |noise| + MESSAGE_SIZE by { EncodedSize(f); }
    assert wire[..|stem|] == stem;
    if run.consumed <= |stem| {
      assert wire[..run.consumed] == stem[..run.consumed];
      MachineOnMessage(noise, f, run.consumed);
    } else if TrailingAs(noise) % 2 == 0 {
      FinishesOnMessage(noise, f);
      RunStops(wire, polls, timeout, START, 0, |stem|);
      assert false;
    }
  }

  lemma EncodedSize(f: seq<byte>)
    requires |f| == FRAME_SIZE
    ensures |Encode(f)| == MESSAGE_SIZE
  {}

  /** A call on a stream that ends with the message. */
  lemma FsmReceivesLast(noise: seq<byte>, f: seq<byte>, polls: seq<nat>, timeout: nat)
    requires StrTheorems.Quiet(noise) && |f| == FRAME_SIZE
    ensures var run := FsmRun(noise + Encode(f), polls, timeout, START, 0);
      (ReturnedCount(run) == MESSAGE_SIZE <==>
        TrailingAs(noise) % 2 == 0 && run.consumed == |noise| + MESSAGE_SIZE)
      && (ReturnedCount(run) == MESSAGE_SIZE ==> run.f.got == Hex(f))
  {
    hide TrailingAs, Hex, Encode, StrTheorems.Quiet, FsmRun;
    EncodedSize(f);
    assert noise + Encode(f) + [] == noise + Encode(f);
    FsmReceives(noise, f, [], polls, timeout);
  }

  /** Two calls on the same bytes, each with its own arrival pattern and time limit, and whatever follows
      the message: if the noise does not end in an A, both deliver its 64 characters first of all once
      both have read the message. */
  lemma ReceiversAgree(
      noise: seq<byte>, f: seq<byte>, rest: seq<byte>,
      polls: seq<nat>, timeout: nat, fsmPolls: seq<nat>, fsmTimeout: nat)
    requires StrTheorems.Quiet(noise) && |f| == FRAME_SIZE
    requires noise == [] || !IsA(noise[|noise| - 1])
    ensures var str := Str.ReceiveRun(noise + Encode(f) + rest, polls, timeout, []);
      var fsm := FsmRun(noise + Encode(f) + rest, fsmPolls, fsmTimeout, START, 0);
      (str.outcome.Delivered? <==> str.consumed >= |noise| + 69)
      && fsm.consumed <= |noise| + MESSAGE_SIZE
      && (ReturnedCount(fsm) == MESSAGE_SIZE <==> fsm.consumed == |noise| + MESSAGE_SIZE)
      && (str.outcome.Delivered? && ReturnedCount(fsm) == MESSAGE_SIZE ==>
            str.outcome.frames
              == [fsm.f.got] + Str.FramesOf(UpperAll(noise + Encode(f) + rest)[|noise| + 69..str.consumed]))
  {
    assert TrailingAs(noise) == 0;
    hide TrailingAs, Hex, Encode, StrTheorems.Quiet, FsmRun, Str.ReceiveRun, Str.FramesOf;
    FsmReceives(noise, f, rest, fsmPolls, fsmTimeout);
    StrTheorems.RoundTrip(noise, f, rest, polls, timeout, seq(TEXT_SIZE, _ => 0 as byte));
  }

  /** The side condition is needed: behind a single `A` the string receiver delivers and the state
      machine, reading every byte, does not. */
  lemma ReceiversDisagree(f: seq<byte>, polls: seq<nat>, timeout: nat)
    requires |f| == FRAME_SIZE
    ensures var wire := [0x41] + Encode(f);
      var str := Str.ReceiveRun(wire, polls, timeout, []);
      var fsm := FsmRun(wire, polls, timeout, START, 0);
      (str.outcome.Delivered? <==> str.consumed >= 70) && ReturnedCount(fsm) != MESSAGE_SIZE
  {
    var noise: seq<byte> := [0x41];
    assert TrailingAs(noise) == 1;
    assert StrTheorems.Quiet(noise);
    FsmReceivesLast(noise, f, polls, timeout);
    StrTheorems.RoundTripLast(noise, f, polls, timeout);
  }
}
