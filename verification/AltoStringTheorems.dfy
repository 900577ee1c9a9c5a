/**
What the string-buffer receiver promises over whole calls: everything it delivers was framed in its
input, its buffer bound is exact, and an encoded frame behind noise comes back however the stream is
cut into reads.
 */
module AltoStringTheorems {
  import opened AltoCodec
  import opened Integers
  import opened AltoStringReceiver

  // ---------- Soundness ----------

  /** `p` stands in `s` at `i` as `AA55` p CR, short enough and without a CR of its own. */
  predicate FramedAt(s: seq<byte>, i: nat, p: seq<byte>) {
    HeaderAt(s, i) && i + 4 + |p| < |s| && s[i + 4..i + 4 + |p|] == p && s[i + 4 + |p|] == CR
    && NoCR(p) && |p| <= MAX_PAYLOAD
  }

  ghost predicate Framed(s: seq<byte>, p: seq<byte>) {
    exists i: nat :: FramedAt(s, i, p)
  }

  lemma FramedInSuffix(r: seq<byte>, s: seq<byte>, p: seq<byte>)
    requires IsSuffix(r, s) && Framed(r, p)
    ensures Framed(s, p)
  {
    var i: nat :| FramedAt(r, i, p);
    var k := |s| - |r|;
    assert s[k + i + 4..k + i + 4 + |p|] == r[i + 4..i + 4 + |p|];
    assert FramedAt(s, k + i, p);
  }

  lemma LineIsFramed(b: seq<byte>, e: nat, k: nat)
    requires FindCR(b, 0) == At(e) && k < |PayloadOf(b[..e])|
    ensures Framed(b, PayloadOf(b[..e])[k])
  {
    var h := FindHeader(b[..e], 0).i;
    assert PayloadOf(b[..e])[k] == b[h + 4..e];
    assert FramedAt(b, h, b[h + 4..e]);
  }

  lemma {:induction false} LinesAreFramed(b: seq<byte>)
    ensures forall k :: 0 <= k < |FramesOf(b)| ==> Framed(b, FramesOf(b)[k])
    decreases |b|
  {
    hide Framed, PayloadOf;
    match FindCR(b, 0)
    case Npos =>
    case At(e) =>
      LinesAreFramed(b[e + 1..]);
      var line, later := PayloadOf(b[..e]), FramesOf(b[e + 1..]);
      forall k | 0 <= k < |FramesOf(b)|
        ensures Framed(b, FramesOf(b)[k])
      {
        if k < |line| {
          LineIsFramed(b, e, k);
        } else {
          FramedInSuffix(b[e + 1..], b, later[k - |line|]);
        }
      }
  }

  lemma FeedIsSound(past: seq<byte>, buffer: seq<byte>, chunk: seq<byte>)
    requires BufferOk(buffer) && 0 < |chunk| <= READ_SIZE && IsSuffix(buffer, past)
    ensures IsSuffix(Feed(buffer, chunk).rest, past + chunk)
    ensures var frames := Feed(buffer, chunk).frames;
      forall k :: 0 <= k < |frames| ==> Framed(past + chunk, frames[k])
  {
    var b := buffer + chunk;
    assert IsSuffix(b, past + chunk);
    FeedBounds(buffer, chunk);
    SuffixTrans(Feed(buffer, chunk).rest, b, past + chunk);
    match FindHeader(b, 0)
    case Npos =>
    case At(h) =>
      var frames := Feed(buffer, chunk).frames;
      DrainDeliversLines(b[h..]);
      LinesAreFramed(b[h..]);
      SuffixTrans(b[h..], b, past + chunk);
      forall k | 0 <= k < |frames|
        ensures Framed(past + chunk, frames[k])
      {
        FramedInSuffix(b[h..], past + chunk, frames[k]);
      }
  }

  lemma TurnIsSound(past: seq<byte>, wire: seq<byte>, poll: nat, timeout: nat, buffer: seq<byte>)
    requires BufferOk(buffer) && IsSuffix(buffer, past)
    ensures var t := ReceiveTurn(wire, poll, timeout, buffer);
      var now := past + UpperAll(wire[..t.n]);
      IsSuffix(t.rest, now) && forall k :: 0 <= k < |t.frames| ==> Framed(now, t.frames[k])
  {
    var t := ReceiveTurn(wire, poll, timeout, buffer);
    if t.n > 0 {
      FeedIsSound(past, buffer, UpperAll(wire[..t.n]));
    } else {
      assert past + UpperAll(wire[..t.n]) == past;
    }
  }

  ghost predicate AllFramed(s: seq<byte>, outcome: Outcome) {
    outcome.Delivered? ==> forall k :: 0 <= k < |outcome.frames| ==> Framed(s, outcome.frames[k])
  }

  lemma {:induction false} RunIsSoundFrom(
      past: seq<byte>, wire: seq<byte>, polls: seq<nat>, timeout: nat, buffer: seq<byte>)
    requires BufferOk(buffer) && IsSuffix(buffer, past)
    ensures var run := ReceiveRun(wire, polls, timeout, buffer);
      AllFramed(past + UpperAll(wire[..run.consumed]), run.outcome)
    decreases |polls|
  {
    hide ReceiveTurn, BufferOk, IsSuffix, Framed, UpperAll;
    if polls != [] {
      var t := ReceiveTurn(wire, polls[0], timeout, buffer);
      TurnIsSound(past, wire, polls[0], timeout, buffer);
      if t.frames == [] && t.timeout != 0 {
        var later := ReceiveRun(wire[t.n..], polls[1..], t.timeout, t.rest);
        RunIsSoundFrom(past + UpperAll(wire[..t.n]), wire[t.n..], polls[1..], t.timeout, t.rest);
        SplitPast(past, wire, t.n, later.consumed);
      }
    }
  }

  lemma SplitPast(past: seq<byte>, wire: seq<byte>, n: nat, m: nat)
    requires n + m <= |wire|
    ensures past + UpperAll(wire[..n + m]) == past + UpperAll(wire[..n]) + UpperAll(wire[n..][..m])
  {}

  /** Over any stream and any arrival pattern, every payload a call delivers is a slice of the
      capitalised input between `AA55` and the next CR, of at most 64 characters. */
  lemma RunIsSound(wire: seq<byte>, polls: seq<nat>, timeout: nat)
    ensures var run := ReceiveRun(wire, polls, timeout, []);
      AllFramed(UpperAll(wire[..run.consumed]), run.outcome)
  {
    hide Framed, UpperAll, ReceiveRun;
    RunIsSoundFrom([], wire, polls, timeout, []);
    var run := ReceiveRun(wire, polls, timeout, []);
    assert [] + UpperAll(wire[..run.consumed]) == UpperAll(wire[..run.consumed]);
  }

  // ---------- The buffer bound is exact ----------

  function Zeros(n: nat): (z: seq<byte>)
    ensures |z| == n
  {
    seq(n, i => 0 as byte)
  }

  /** Two headers and `n` zeros. */
  function TwoHeaders(n: nat): (s: seq<byte>)
    ensures |s| == n + 8
    ensures HeaderAt(s, 0) && HeaderAt(s, 4) && forall j: nat :: j > 4 ==> !HeaderAt(s, j)
    ensures NoCR(s)
  {
    HEADER + HEADER + Zeros(n)
  }

  lemma MoreZeros(n: nat, m: nat)
    ensures TwoHeaders(n) + Zeros(m) == TwoHeaders(n + m)
  {}

  /** Three reads that leave exactly 380 characters in the buffer. */
  lemma BoundIsReached()
    ensures BufferOk([])
    ensures var b1 := Feed([], TwoHeaders(120));
      var b2 := Feed(b1.rest, Zeros(128));
      var b3 := Feed(b2.rest, Zeros(128));
      b1.frames == b2.frames == b3.frames == [] && |b3.rest| == BUFFER_BOUND
  {
    hide Feed;
    assert [] + TwoHeaders(120) == TwoHeaders(120);
    PlainFeed([], TwoHeaders(120), TwoHeaders(120));
    MoreZeros(120, 128);
    PlainFeed(TwoHeaders(120), Zeros(128), TwoHeaders(248));
    MoreZeros(248, 128);
    PlainFeed(TwoHeaders(248), Zeros(128), TwoHeaders(376));
  }

  lemma PlainFeed(buffer: seq<byte>, chunk: seq<byte>, b: seq<byte>)
    requires BufferOk(buffer) && 0 < |chunk| <= READ_SIZE && b == buffer + chunk
    requires HeaderAt(b, 0) && NoCR(b)
    ensures Feed(buffer, chunk) == Drained(Trim(b), [])
  {
    FirstHeader(b, 0);
    assert b[0..] == b;
    assert FindCR(b, 0).Npos?;
  }

  // ---------- The round trip ----------

  /** Noise in which no `AA55` stands, in either case. */
  predicate Quiet(noise: seq<byte>) {
    NoHeader(UpperAll(noise))
  }

  /** A capitalised stream that is noise of length `n`, then a message with payload `p`, and whatever
      follows. */
  predicate Message(w: seq<byte>, n: nat, p: seq<byte>) {
    |w| >= n + MESSAGE_SIZE && FirstHeaderAt(w, n) && |p| == TEXT_SIZE && NoCR(p)
    && w[n + 4..n + 68] == p && w[n + 68] == CR && w[n + 69] == LF
  }

  lemma MessageBehindNoise(noise: seq<byte>, f: seq<byte>, rest: seq<byte>)
    requires Quiet(noise) && |f| == FRAME_SIZE
    ensures Message(UpperAll(noise + Encode(f) + rest), |noise|, Hex(f))
  {
    hide Encode, Hex, Upper, NoHeader, FirstHeaderAt, NoCR;
    var n, w := |noise|, UpperAll(noise + Encode(f) + rest);
    EncodedText(f);
    assert forall i :: 0 <= i < n ==> w[i] == UpperAll(noise)[i];
    assert forall i :: 0 <= i < MESSAGE_SIZE ==> w[n + i] == Encode(f)[i];
    assert w[n + 4..n + 68] == Hex(f);
    HeaderBehindNoise(UpperAll(noise), w);
  }

  /** The message is all capitals already. */
  lemma EncodedText(f: seq<byte>)
    requires |f| == FRAME_SIZE
    ensures |Encode(f)| == MESSAGE_SIZE && HeaderAt(Encode(f), 0)
    ensures forall i :: 0 <= i < MESSAGE_SIZE ==> Upper(Encode(f)[i]) == Encode(f)[i]
    ensures forall i :: 4 <= i < 68 ==> Encode(f)[i] == Hex(f)[i - 4]
    ensures Encode(f)[68] == CR && Encode(f)[69] == LF && NoCR(Hex(f))
  {
    hide HexDigit, HighDigit, LowDigit;
    HexIsUpperCaseDigits(f);
  }

  /** `AA55` does not overlap itself, so noise cannot complete it early. */
  lemma HeaderBehindNoise(noise: seq<byte>, w: seq<byte>)
    requires NoHeader(noise) && noise <= w && HeaderAt(w, |noise|)
    ensures FirstHeaderAt(w, |noise|)
  {
    forall j: nat | j < |noise|
      ensures !HeaderAt(w, j)
    {
      assert !HeaderAt(noise, j);
    }
  }

  /** What the receiver holds after `k` characters of such a stream, whatever the reads were. */
  function Held(w: seq<byte>, n: nat, k: nat): seq<byte>
    requires k <= |w| && n <= |w|
  {
    if k >= n + 4 then w[n..k] else if k > 4 then w[k - 4..k] else w[..k]
  }

  lemma HeldIsOk(w: seq<byte>, n: nat, p: seq<byte>, k: nat)
    requires Message(w, n, p) && k < n + 69
    ensures BufferOk(Held(w, n, k))
  {
    if k >= n + 4 {
      var b := w[n..k];
      forall i | 0 <= i < |b| ensures b[i] != CR {
        if i >= 4 { assert b[i] == p[i - 4]; }
      }
    }
  }

  lemma HeaderOfSlice(w: seq<byte>, n: nat, i: nat, j: nat)
    requires FirstHeaderAt(w, n) && i <= n && i <= j <= |w|
    ensures j < n + 4 ==> forall h: nat :: !HeaderAt(w[i..j], h)
    ensures j >= n + 4 ==> FirstHeaderAt(w[i..j], n - i) && w[i..j][n - i..] == w[n..j]
  {
    assert forall h: nat :: HeaderAt(w[i..j], h) ==> HeaderAt(w, i + h) && i + h + 4 <= j;
  }

  lemma FeedBeforeHeader(w: seq<byte>, n: nat, start: nat, end: nat, buffer: seq<byte>, chunk: seq<byte>)
    requires FirstHeaderAt(w, n) && start <= n && start <= end < n + 4
    requires BufferOk(buffer) && 0 < |chunk| <= READ_SIZE && buffer + chunk == w[start..end]
    ensures Feed(buffer, chunk) == Drained(LastFour(w[start..end]), [])
  {
    HeaderOfSlice(w, n, start, end);
    assert FindHeader(w[start..end], 0).Npos?;
  }

  lemma FeedWithHeader(buffer: seq<byte>, chunk: seq<byte>, h: nat)
    requires BufferOk(buffer) && 0 < |chunk| <= READ_SIZE
    requires FirstHeaderAt(buffer + chunk, h)
    ensures var d := Drain((buffer + chunk)[h..]);
      Feed(buffer, chunk).frames == d.frames
      && (|d.rest| <= TRIM_LIMIT ==> Feed(buffer, chunk).rest == d.rest)
  {
    FirstHeader(buffer + chunk, h);
  }

  lemma FeedBehindHeader(w: seq<byte>, n: nat, start: nat, end: nat, buffer: seq<byte>, chunk: seq<byte>)
    requires FirstHeaderAt(w, n) && start <= n && n + 4 <= end <= |w|
    requires BufferOk(buffer) && 0 < |chunk| <= READ_SIZE && buffer + chunk == w[start..end]
    ensures var d := Drain(w[n..end]);
      Feed(buffer, chunk).frames == d.frames
      && (|d.rest| <= TRIM_LIMIT ==> Feed(buffer, chunk).rest == d.rest)
  {
    hide BufferOk, Feed, Drain;
    HeaderOfSlice(w, n, start, end);
    FeedWithHeader(buffer, chunk, n - start);
  }

  /** The buffer and the next read together are a slice of the stream. */
  lemma HeldAndRead(w: seq<byte>, n: nat, k: nat, m: nat)
    requires n + 4 <= |w| && k + m <= |w|
    ensures Held(w, n, k) + w[k..k + m] == w[HeldFrom(n, k)..k + m]
    ensures k + m < n + 4 ==> LastFour(w[HeldFrom(n, k)..k + m]) == Held(w, n, k + m)
  {}

  function HeldFrom(n: nat, k: nat): nat {
    if k >= n + 4 then n else if k > 4 then k - 4 else 0
  }

  lemma MessageShape(w: seq<byte>, n: nat, p: seq<byte>)
    requires Message(w, n, p)
    ensures FirstHeaderAt(w, n) && |w| >= n + MESSAGE_SIZE
  {}

  lemma HeldBehindHeader(w: seq<byte>, n: nat, k: nat)
    requires n + 4 <= k <= |w|
    ensures Held(w, n, k) == w[n..k]
  {}

  lemma FeedHeld(w: seq<byte>, n: nat, p: seq<byte>, k: nat, m: nat, buffer: seq<byte>)
    requires n + 4 <= |w| && k + m <= |w|
    requires Message(w, n, p) && k < n + 69 && 0 < m <= READ_SIZE
    requires buffer == Held(w, n, k) && BufferOk(buffer)
    ensures k + m < n + 69 ==> Feed(buffer, w[k..k + m]) == Drained(Held(w, n, k + m), [])
    ensures k + m >= n + 69 ==> Feed(buffer, w[k..k + m]).frames == [p] + FramesOf(w[n + 69..k + m])
  {
    hide BufferOk, Feed, Drain, Message, FirstHeaderAt, Held, HeldFrom, LastFour, FramesOf, NoCR;
    if k + m < n + 4 {
      FeedHeldBefore(w, n, p, k, m, buffer);
    } else {
      FeedHeldBehind(w, n, p, k, m, buffer);
      if k + m < n + 69 {
        DrainUnfinished(w, n, p, k + m);
        HeldBehindHeader(w, n, k + m);
      } else {
        DrainMessage(w, n, p, k + m);
      }
    }
  }

  /** A read that ends within the header. */
  lemma FeedHeldBefore(w: seq<byte>, n: nat, p: seq<byte>, k: nat, m: nat, buffer: seq<byte>)
    requires Message(w, n, p) && k + m < n + 4 <= |w| && 0 < m <= READ_SIZE
    requires buffer == Held(w, n, k) && BufferOk(buffer)
    ensures Feed(buffer, w[k..k + m]) == Drained(Held(w, n, k + m), [])
  {
    hide BufferOk, Feed, Message, FirstHeaderAt, Held, LastFour, NoCR;
    MessageShape(w, n, p);
    HeldAndRead(w, n, k, m);
    FeedBeforeHeader(w, n, HeldFrom(n, k), k + m, buffer, w[k..k + m]);
  }

  /** A read that ends behind the header. */
  lemma FeedHeldBehind(w: seq<byte>, n: nat, p: seq<byte>, k: nat, m: nat, buffer: seq<byte>)
    requires Message(w, n, p) && n + 4 <= k + m <= |w| && 0 < m <= READ_SIZE
    requires buffer == Held(w, n, k) && BufferOk(buffer)
    ensures var d := Drain(w[n..k + m]);
      Feed(buffer, w[k..k + m]).frames == d.frames
      && (|d.rest| <= TRIM_LIMIT ==> Feed(buffer, w[k..k + m]).rest == d.rest)
  {
    hide BufferOk, Feed, Drain, Message, FirstHeaderAt, Held, LastFour, NoCR;
    MessageShape(w, n, p);
    HeldAndRead(w, n, k, m);
    FeedBehindHeader(w, n, HeldFrom(n, k), k + m, buffer, w[k..k + m]);
  }

  lemma DrainUnfinished(w: seq<byte>, n: nat, p: seq<byte>, k: nat)
    requires Message(w, n, p) && n + 4 <= k < n + 69
    ensures Drain(w[n..k]) == Drained(w[n..k], [])
  {
    var b := w[n..k];
    assert forall i :: 4 <= i < |b| ==> b[i] == p[i - 4];
    assert FindCR(b, 0).Npos?;
  }

  lemma DrainMessage(w: seq<byte>, n: nat, p: seq<byte>, k: nat)
    requires Message(w, n, p) && n + 69 <= k <= |w|
    ensures Drain(w[n..k]).frames == [p] + FramesOf(w[n + 69..k])
  {
    hide Drain, FramesOf;
    var b := w[n..k];
    LineOfMessage(w, n, p, k);
    DrainDeliversLines(b);
    FramesOfOneLine(b, p);
    assert b[69..] == w[n + 69..k];
  }

  lemma LineOfMessage(w: seq<byte>, n: nat, p: seq<byte>, k: nat)
    requires Message(w, n, p) && n + 69 <= k <= |w|
    ensures var b := w[n..k]; FirstCRAt(b, 68) && HeaderAt(b[..68], 0) && b[..68][4..] == p && |p| == TEXT_SIZE
  {
    var b := w[n..k];
    assert forall i :: 4 <= i < 68 ==> b[i] == p[i - 4];
    assert b[..68][4..] == p;
  }

  lemma FramesOfOneLine(b: seq<byte>, p: seq<byte>)
    requires FirstCRAt(b, 68)
    requires HeaderAt(b[..68], 0) && b[..68][4..] == p && |p| == TEXT_SIZE
    ensures FramesOf(b) == [p] + FramesOf(b[69..])
  {
    FirstCR(b, 68);
    FirstHeader(b[..68], 0);
  }

  /** The receive loop is `k` characters into a message stream, with `rest` still to come. */
  predicate OnTrack(w: seq<byte>, n: nat, p: seq<byte>, rest: seq<byte>, k: nat, buffer: seq<byte>) {
    Message(w, n, p) && k <= |w| && n <= |w| && k < n + 69
    && BufferOk(buffer) && buffer == Held(w, n, k) && UpperAll(rest) == w[k..]
  }

  lemma OneTurn(
      w: seq<byte>, n: nat, p: seq<byte>, rest: seq<byte>, k: nat, buffer: seq<byte>, poll: nat, timeout: nat)
    requires OnTrack(w, n, p, rest, k, buffer)
    ensures var t := ReceiveTurn(rest, poll, timeout, buffer);
      if k + t.n < n + 69
      then t.frames == [] && OnTrack(w, n, p, rest[t.n..], k + t.n, t.rest)
      else t.frames == [p] + FramesOf(w[n + 69..k + t.n])
  {
    hide BufferOk, Feed, Message, FramesOf, Held, UpperAll;
    MessageShape(w, n, p);
    var t := ReceiveTurn(rest, poll, timeout, buffer);
    UpperOfSplit(w, rest, k, t.n);
    if t.n > 0 {
      FeedHeld(w, n, p, k, t.n, buffer);
      HeldIsOk(w, n, p, if k + t.n < n + 69 then k + t.n else k);
    } else {
      assert rest[0..] == rest;
    }
  }

  lemma UpperOfSplit(w: seq<byte>, rest: seq<byte>, k: nat, m: nat)
    requires k <= |w| && UpperAll(rest) == w[k..] && m <= |rest|
    ensures |rest| == |w| - k
    ensures UpperAll(rest[..m]) == w[k..k + m] && UpperAll(rest[m..]) == w[k + m..]
  {
    assert w[k..][..m] == w[k..k + m] && w[k..][m..] == w[k + m..];
    assert forall i :: 0 <= i < m ==> UpperAll(rest[..m])[i] == UpperAll(rest)[i];
    assert forall i :: 0 <= i < |rest| - m ==> UpperAll(rest[m..])[i] == UpperAll(rest)[m + i];
  }

  lemma {:induction false} RoundTripFrom(
    w: seq<byte>, n: nat, p: seq<byte>, rest: seq<byte>, k: nat, buffer: seq<byte>, polls: seq<nat>, timeout: nat)
    requires OnTrack(w, n, p, rest, k, buffer)
    ensures var run := ReceiveRun(rest, polls, timeout, buffer);
      (run.outcome.Delivered? <==> k + run.consumed >= n + 69)
      && (run.outcome.Delivered? ==> run.outcome.frames == [p] + FramesOf(w[n + 69..k + run.consumed]))
    decreases |polls|
  {
    hide ReceiveTurn, Message, Held, BufferOk, UpperAll, Short, FramesOf;
    if polls != [] {
      var t := ReceiveTurn(rest, polls[0], timeout, buffer);
      OneTurn(w, n, p, rest, k, buffer, polls[0], timeout);
      if k + t.n < n + 69 {
        RoundTripFrom(w, n, p, rest[t.n..], k + t.n, t.rest, polls[1..], t.timeout);
      }
    }
  }

  lemma StartOnTrack(noise: seq<byte>, f: seq<byte>, rest: seq<byte>)
    requires Quiet(noise) && |f| == FRAME_SIZE
    ensures var raw := noise + Encode(f) + rest;
      OnTrack(UpperAll(raw), |noise|, Hex(f), raw, 0, [])
  {
    MessageBehindNoise(noise, f, rest);
  }

  /** The end-to-end round trip. For every frame, every quiet noise, whatever follows the message, and
      every arrival pattern and timeout, the call delivers if and only if it got as far as the message's
      CR. It then delivers the 64 hex digits, which decode to the frame, and after them what the lines
      carry that its last read has brought in as well. */
  lemma RoundTrip(
      noise: seq<byte>, f: seq<byte>, rest: seq<byte>, polls: seq<nat>, timeout: nat, junk: seq<byte>)
    requires Quiet(noise) && |f| == FRAME_SIZE && |junk| == TEXT_SIZE
    ensures var raw := noise + Encode(f) + rest; var run := ReceiveRun(raw, polls, timeout, []);
      (run.outcome.Delivered? <==> run.consumed >= |noise| + 69)
      && (run.outcome.Delivered? ==>
            run.outcome.frames == [Hex(f)] + FramesOf(UpperAll(raw)[|noise| + 69..run.consumed]))
    ensures Decode(Hex(f), junk) == f
  {
    hide FramesOf, OnTrack, Encode, Hex, Decode, ReceiveRun, UpperAll, Quiet;
    var raw := noise + Encode(f) + rest;
    StartOnTrack(noise, f, rest);
    RoundTripFrom(UpperAll(raw), |noise|, Hex(f), raw, 0, [], polls, timeout);
    DecodeEncode(f, junk);
  }

  /** When no later line ends in the call's last read, the frame is all that is delivered: so if nothing
      follows the message. */
  lemma RoundTripAlone(
      noise: seq<byte>, f: seq<byte>, rest: seq<byte>, polls: seq<nat>, timeout: nat, out: seq<byte>)
    requires Quiet(noise) && |f| == FRAME_SIZE && |out| >= MAX_PAYLOAD
    requires var raw := noise + Encode(f) + rest; var run := ReceiveRun(raw, polls, timeout, []);
      run.consumed >= |noise| + 69 ==> NoCR(UpperAll(raw)[|noise| + 69..run.consumed])
    ensures var run := ReceiveRun(noise + Encode(f) + rest, polls, timeout, []);
      (run.outcome.Delivered? <==> run.consumed >= |noise| + 69)
      && (run.outcome.Delivered? ==>
            run.outcome.frames == [Hex(f)] && ReturnedCount(run.outcome) == TEXT_SIZE)
      && (!run.outcome.Delivered? ==> ReturnedCount(run.outcome) == 0)
      && ReturnedBuffer(out, run.outcome) == if run.outcome.Delivered? then Hex(f) + out[TEXT_SIZE..] else out
  {
    hide ReceiveRun, Quiet;
    OverlayOne(out, Hex(f));
    RoundTrip(noise, f, rest, polls, timeout, Zeros(TEXT_SIZE));
    var raw := noise + Encode(f) + rest;
    var run := ReceiveRun(raw, polls, timeout, []);
    if run.outcome.Delivered? {
      NothingBehind(UpperAll(raw)[|noise| + 69..run.consumed]);
    }
  }

  lemma OverlayOne(out: seq<byte>, p: seq<byte>)
    requires |p| <= MAX_PAYLOAD <= |out|
    ensures Overlay(out, [p]) == p + out[|p|..]
  {
    assert [p][..0] == [];
  }

  /** What several payloads of one read leave in the caller's buffer: at each place the character of the
      last one that is long enough, and where none is, what was there before. */
  lemma {:induction false} OverlayAt(out: seq<byte>, frames: seq<seq<byte>>, k: nat, j: nat)
    requires |out| >= MAX_PAYLOAD && Short(frames) && k < |out|
    requires j <= |frames| && forall i :: j <= i < |frames| ==> |frames[i]| <= k
    ensures j == 0 ==> Overlay(out, frames)[k] == out[k]
    ensures j > 0 && |frames[j - 1]| > k ==> Overlay(out, frames)[k] == frames[j - 1][k]
    decreases |frames|
  {
    if j < |frames| {
      OverlayAt(out, frames[..|frames| - 1], k, j);
    }
  }

  /** A call returns the size of the last payload it delivers, and 0 if it delivers none. */
  lemma CountIsLast(wire: seq<byte>, polls: seq<nat>, timeout: nat)
    ensures var outcome := ReceiveRun(wire, polls, timeout, []).outcome;
      ReturnedCount(outcome)
        == if outcome.Delivered? then |outcome.frames[|outcome.frames| - 1]| else 0
  {
    hide ReceiveRun;
  }

  lemma NothingBehind(b: seq<byte>)
    requires NoCR(b)
    ensures FramesOf(b) == []
  {}

  /** The message's LF is all that can follow its CR. */
  lemma OnlyLfBehind(noise: seq<byte>, f: seq<byte>, k: nat)
    requires Quiet(noise) && |f| == FRAME_SIZE && |noise| + 69 <= k <= |noise + Encode(f)|
    ensures NoCR(UpperAll(noise + Encode(f))[|noise| + 69..k])
  {
    MessageBehindNoise(noise, f, []);
    assert noise + Encode(f) + [] == noise + Encode(f);
    hide Encode, Hex, Quiet;
  }

  /** A call on a stream that ends with the message. */
  lemma RoundTripLast(noise: seq<byte>, f: seq<byte>, polls: seq<nat>, timeout: nat)
    requires Quiet(noise) && |f| == FRAME_SIZE
    ensures var run := ReceiveRun(noise + Encode(f), polls, timeout, []);
      (run.outcome.Delivered? <==> run.consumed >= |noise| + 69)
      && (run.outcome.Delivered? ==> run.outcome.frames == [Hex(f)])
  {
    hide Encode, Hex, Quiet, ReceiveRun, NoCR, UpperAll;
    assert noise + Encode(f) + [] == noise + Encode(f);
    var run := ReceiveRun(noise + Encode(f), polls, timeout, []);
    if run.consumed >= |noise| + 69 {
      OnlyLfBehind(noise, f, run.consumed);
    }
    RoundTripAlone(noise, f, [], polls, timeout, Zeros(MAX_PAYLOAD));
  }

  /** How many bytes the answers `polls` let through when `left` are on the wire. */
  function Supplied(left: nat, polls: seq<nat>): nat {
    if polls == [] then 0
    else
      var n := Min(Min(polls[0], left), READ_SIZE);
      n + Supplied(left - n, polls[1..])
  }

  function Idles(polls: seq<nat>): nat {
    if polls == [] then 0 else (if polls[0] == 0 then 1 else 0) + Idles(polls[1..])
  }

  lemma TurnCounts(wire: seq<byte>, poll: nat, timeout: nat, buffer: seq<byte>)
    requires BufferOk(buffer)
    ensures var t := ReceiveTurn(wire, poll, timeout, buffer);
      t.n == Min(Min(poll, |wire|), READ_SIZE) && t.timeout == if t.n == 0 then Tick(timeout) else timeout
  {
    hide Feed, BufferOk, Short, UpperAll;
  }

  lemma TicksLeft(left: nat, polls: seq<nat>, timeout: nat)
    requires polls != [] && left > 0 && Idles(polls) < timeout
    ensures var n := Min(Min(polls[0], left), READ_SIZE);
      Idles(polls[1..]) < (if n == 0 then Tick(timeout) else timeout)
      && Supplied(left, polls) == n + Supplied(left - n, polls[1..])
  {}

  lemma {:induction false} DeliveredInTimeFrom(
    w: seq<byte>, n: nat, p: seq<byte>, rest: seq<byte>, k: nat, buffer: seq<byte>, polls: seq<nat>, timeout: nat)
    requires OnTrack(w, n, p, rest, k, buffer)
    requires Idles(polls) < timeout && k + Supplied(|rest|, polls) >= n + 69
    ensures var outcome := ReceiveRun(rest, polls, timeout, buffer).outcome;
      outcome.Delivered? && outcome.frames[0] == p
    decreases |polls|
  {
    hide ReceiveTurn, Message, BufferOk, Held, UpperAll, FramesOf;
    MessageShape(w, n, p);
    assert polls != [];
    var t := ReceiveTurn(rest, polls[0], timeout, buffer);
    OneTurn(w, n, p, rest, k, buffer, polls[0], timeout);
    assert |rest| == |UpperAll(rest)| == |w| - k;
    TurnCounts(rest, polls[0], timeout, buffer);
    TicksLeft(|rest|, polls, timeout);
    if k + t.n < n + 69 {
      assert |rest[t.n..]| == |rest| - t.n;
      DeliveredInTimeFrom(w, n, p, rest[t.n..], k + t.n, t.rest, polls[1..], t.timeout);
    }
  }

  /** No arrival pattern that brings the whole line in before the ticks run out can keep the frame
      from being delivered, first of all. */
  lemma DeliveredInTime(noise: seq<byte>, f: seq<byte>, rest: seq<byte>, polls: seq<nat>, timeout: nat)
    requires Quiet(noise) && |f| == FRAME_SIZE
    requires Idles(polls) < timeout
    requires Supplied(|noise| + MESSAGE_SIZE + |rest|, polls) >= |noise| + 69
    ensures var outcome := ReceiveRun(noise + Encode(f) + rest, polls, timeout, []).outcome;
      outcome.Delivered? && outcome.frames[0] == Hex(f)
  {
    var raw := noise + Encode(f) + rest;
    StartOnTrack(noise, f, rest);
    DeliveredInTimeFrom(UpperAll(raw), |noise|, Hex(f), raw, 0, [], polls, timeout);
  }
}
