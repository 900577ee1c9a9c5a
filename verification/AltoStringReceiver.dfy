/**
The string-buffer receiver of ALTO frames: it appends every chunk it reads to `receivedPacket`,
searches that string for `AA55` and for CR, and cuts it down when it grows.
 */
module AltoStringReceiver {
  import opened AltoCodec
  import opened Integers
  import opened SerialPort

  const READ_SIZE := 128
  const MAX_PAYLOAD := 64
  const TRIM_LIMIT := 256
  const BUFFER_BOUND := 380
  const WAIT_FOREVER := 0xFFFF_FFFF

  // ---------- Searching a string ----------

  /** A string position, or `std::string::npos`. */
  datatype Index = Npos | At(i: nat)

  predicate HeaderAt(s: seq<byte>, i: nat) {
    i + 4 <= |s| && s[i] == 0x41 && s[i + 1] == 0x41 && s[i + 2] == 0x35 && s[i + 3] == 0x35
  }

  predicate NoHeader(s: seq<byte>) {
    forall i: nat :: i < |s| ==> !HeaderAt(s, i)
  }

  predicate NoCR(s: seq<byte>) {
    forall i :: 0 <= i < |s| ==> s[i] != CR
  }

  predicate IsSuffix(r: seq<byte>, b: seq<byte>) {
    |r| <= |b| && r == b[|b| - |r|..]
  }

  lemma SuffixTrans(a: seq<byte>, b: seq<byte>, c: seq<byte>)
    requires IsSuffix(a, b) && IsSuffix(b, c)
    ensures IsSuffix(a, c)
  {}

  predicate FirstCRAt(s: seq<byte>, e: nat) {
    e < |s| && s[e] == CR && forall i :: 0 <= i < e ==> s[i] != CR
  }

  predicate FirstHeaderAt(s: seq<byte>, h: nat) {
    HeaderAt(s, h) && forall j: nat :: j < h ==> !HeaderAt(s, j)
  }

  /** `find(startFrame, from)` */
  function FindHeader(s: seq<byte>, from: nat): (r: Index)
    requires from <= |s|
    ensures r.At? ==> from <= r.i && HeaderAt(s, r.i) && forall j: nat :: from <= j < r.i ==> !HeaderAt(s, j)
    ensures r.Npos? ==> forall j: nat :: from <= j ==> !HeaderAt(s, j)
    decreases |s| - from
  {
    if from == |s| then Npos else if HeaderAt(s, from) then At(from) else FindHeader(s, from + 1)
  }

  /** `rfind(startFrame)`, looking at the positions below `to` */
  function RFindHeader(s: seq<byte>, to: nat): (r: Index)
    requires to <= |s|
    ensures r.At? ==> r.i < to && HeaderAt(s, r.i) && forall j: nat :: r.i < j < to ==> !HeaderAt(s, j)
    ensures r.Npos? ==> forall j: nat :: j < to ==> !HeaderAt(s, j)
  {
    if to == 0 then Npos else if HeaderAt(s, to - 1) then At(to - 1) else RFindHeader(s, to - 1)
  }

  /** `find(endFrame, from)` */
  function FindCR(s: seq<byte>, from: nat): (r: Index)
    requires from <= |s|
    ensures r.At? ==> from <= r.i < |s| && s[r.i] == CR && forall i :: from <= i < r.i ==> s[i] != CR
    ensures r.Npos? ==> forall i :: from <= i < |s| ==> s[i] != CR
    decreases |s| - from
  {
    if from == |s| then Npos else if s[from] == CR then At(from) else FindCR(s, from + 1)
  }

  // ---------- The drain loop ----------

  datatype Drained = Drained(rest: seq<byte>, frames: seq<seq<byte>>)

  function Accepted(payload: seq<byte>): seq<seq<byte>> {
    if |payload| <= MAX_PAYLOAD then [payload] else []
  }

  /** One turn of the inner loop on a string with a CR at `e`. When there is a header but no CR
      behind it, `npos + 1` wraps to 0 and only the header is cut off. */
  function DrainTurn(b: seq<byte>, e: nat): (d: Drained)
    requires FirstCRAt(b, e)
    ensures |d.rest| <= |b| - e - 1 && IsSuffix(d.rest, b)
  {
    match FindHeader(b, 0)
    case Npos => Drained(b[e + 1..], [])
    case At(h) =>
      var c := b[h + 4..];
      match FindCR(c, 0)
      case Npos => assert e >= h + 4 ==> c[e - h - 4] == CR; Drained(c, [])
      case At(end) => assert e < h + 4 + end + 1; Drained(c[end + 1..], Accepted(c[..end]))
  }

  /** The inner loop: what is left of the string, and the payloads copied out, in order. */
  function Drain(b: seq<byte>): (d: Drained)
    ensures NoCR(d.rest) && IsSuffix(d.rest, b)
    ensures FindCR(b, 0).At? ==> |d.rest| <= |b| - FindCR(b, 0).i - 1
    ensures Short(d.frames)
    decreases |b|
  {
    match FindCR(b, 0)
    case Npos => Drained(b, [])
    case At(e) =>
      var t := DrainTurn(b, e);
      var d := Drain(t.rest);
      Drained(d.rest, t.frames + d.frames)
  }

  /** What a line carries: the text behind its first header, unless that is too long. */
  function PayloadOf(line: seq<byte>): seq<seq<byte>> {
    match FindHeader(line, 0)
    case Npos => []
    case At(h) => Accepted(line[h + 4..])
  }

  /** What the receiver is meant to deliver from a string: every CR ends a line. */
  function FramesOf(b: seq<byte>): seq<seq<byte>>
    decreases |b|
  {
    match FindCR(b, 0)
    case Npos => []
    case At(e) => PayloadOf(b[..e]) + FramesOf(b[e + 1..])
  }

  /** The drain loop delivers exactly the lines' payloads. */
  lemma {:induction false} DrainDeliversLines(b: seq<byte>)
    ensures Drain(b).frames == FramesOf(b)
    decreases |b|
  {
    match FindCR(b, 0)
    case Npos =>
    case At(e) =>
      DrainOneLine(b, e);
      DrainDeliversLines(b[e + 1..]);
  }

  lemma DrainOneLine(b: seq<byte>, e: nat)
    requires FirstCRAt(b, e)
    ensures Drain(b).frames == PayloadOf(b[..e]) + Drain(b[e + 1..]).frames
  {
    HeadersOfLine(b, e);
    match FindHeader(b, 0)
    case Npos =>
      FirstCR(b, e);
    case At(h) =>
      DrainAtHeader(b, e, h);
      if h < e {
        HeaderInLine(b, e, h);
      } else {
        HeaderBehindLine(b, e, h);
      }
  }

  /** What the drain loop delivers from the text behind a header. */
  function BehindHeader(c: seq<byte>): seq<seq<byte>> {
    match FindCR(c, 0)
    case Npos => []
    case At(end) => Accepted(c[..end]) + Drain(c[end + 1..]).frames
  }

  lemma TurnAtHeader(b: seq<byte>, e: nat, h: nat)
    requires FirstCRAt(b, e) && FirstHeaderAt(b, h)
    ensures var c := b[h + 4..];
      DrainTurn(b, e) == match FindCR(c, 0)
                         case Npos => Drained(c, [])
                         case At(end) => Drained(c[end + 1..], Accepted(c[..end]))
  {
    FirstHeader(b, h);
  }

  lemma DrainAtHeader(b: seq<byte>, e: nat, h: nat)
    requires FirstCRAt(b, e) && FirstHeaderAt(b, h)
    ensures Drain(b).frames == BehindHeader(b[h + 4..])
  {
    hide DrainTurn, FindCR, FirstCRAt, FirstHeaderAt;
    var t := DrainTurn(b, e);
    DrainStep(b, e, []);
    TurnAtHeader(b, e, h);
    assert [] + t.frames == t.frames;
    assert [] + Drain(b).frames == Drain(b).frames;
  }

  lemma HeadersOfLine(b: seq<byte>, e: nat)
    requires FirstCRAt(b, e)
    ensures forall j: nat :: HeaderAt(b[..e], j) <==> HeaderAt(b, j) && j < e
  {}

  lemma HeadersOfSuffix(b: seq<byte>, k: nat)
    requires k <= |b|
    ensures forall j: nat :: HeaderAt(b[k..], j) <==> HeaderAt(b, k + j)
  {}

  lemma HeaderBeforeCR(b: seq<byte>, e: nat, h: nat)
    requires FirstCRAt(b, e) && HeaderAt(b, h) && h < e
    ensures h + 4 <= e
  {}

  lemma HeaderInLine(b: seq<byte>, e: nat, h: nat)
    requires FirstCRAt(b, e) && FirstHeaderAt(b, h) && h < e
    ensures BehindHeader(b[h + 4..]) == PayloadOf(b[..e]) + Drain(b[e + 1..]).frames
  {
    hide Drain, HeaderAt, NoCR;
    assert h + 4 <= e by { HeaderBeforeCR(b, e, h); }
    HeadersOfLine(b, e);
    FirstHeader(b[..e], h);
    var c, end := b[h + 4..], e - h - 4;
    FirstCR(c, end);
    assert c[..end] == b[..e][h + 4..] && c[end + 1..] == b[e + 1..];
  }

  lemma FirstCR(s: seq<byte>, e: nat)
    requires FirstCRAt(s, e)
    ensures FindCR(s, 0) == At(e)
  {}

  lemma FirstHeader(s: seq<byte>, h: nat)
    requires FirstHeaderAt(s, h)
    ensures FindHeader(s, 0) == At(h)
  {}

  /** A line without a header in front of the first header changes nothing. */
  lemma HeaderBehindLine(b: seq<byte>, e: nat, h: nat)
    requires FirstCRAt(b, e) && FirstHeaderAt(b, h) && e < h
    ensures BehindHeader(b[h + 4..]) == PayloadOf(b[..e]) + Drain(b[e + 1..]).frames
  {
    var tail, k := b[e + 1..], h - e - 1;
    HeadersOfLine(b, e);
    assert PayloadOf(b[..e]) == [];
    HeadersOfSuffix(b, e + 1);
    assert FirstHeaderAt(tail, k);
    assert tail[k + 4..] == b[h + 4..];
    match FindCR(tail, 0)
    case At(f) => DrainAtHeader(tail, f, k);
    case Npos => assert NoCR(tail[k + 4..]);
  }

  // ---------- One read ----------

  /** What `receivedPacket` satisfies whenever a read is about to be appended to it. */
  predicate BufferOk(b: seq<byte>) {
    |b| <= 4
    || (NoCR(b) && |b| < READ_SIZE)
    || (NoCR(b) && HeaderAt(b, 0) && |b| <= BUFFER_BOUND && (|b| > TRIM_LIMIT ==> OnlyHeaderInFront(b)))
  }

  predicate OnlyHeaderInFront(b: seq<byte>) {
    forall j: nat :: 0 < j < |b| ==> !HeaderAt(b, j)
  }

  /** The last four characters, or all of a shorter string. */
  function LastFour(b: seq<byte>): seq<byte> {
    if |b| > 4 then b[|b| - 4..] else b
  }

  /** The cut at 256 characters. `rfind` always finds a header here, so `substr(npos)` cannot happen. */
  function Trim(b: seq<byte>): (r: seq<byte>)
    requires |b| > TRIM_LIMIT ==> HeaderAt(b, 0)
    ensures IsSuffix(r, b)
    ensures |b| > TRIM_LIMIT ==> |r| == 4 || (HeaderAt(r, 0) && |r| < |b| && OnlyHeaderInFront(r))
  {
    if |b| > TRIM_LIMIT then
      match RFindHeader(b, |b|)
      case Npos => assert false; b
      case At(h) => HeadersOfSuffix(b, h); if h != 0 then b[h..] else LastFour(b)
    else b
  }

  /** The string after a read, cut to its first header at `h`: with a CR in it the drain loop leaves
      less than one read, without one it is left as it is. */
  lemma DrainAfterRead(buffer: seq<byte>, chunk: seq<byte>, h: nat)
    requires BufferOk(buffer) && 0 < |chunk| <= READ_SIZE
    requires FirstHeaderAt(buffer + chunk, h)
    ensures var b := (buffer + chunk)[h..]; var d := Drain(b);
      HeaderAt(b, 0) && if NoCR(b) then d == Drained(b, []) else |d.rest| < READ_SIZE
  {
    var whole := buffer + chunk;
    var b := whole[h..];
    HeadersOfSuffix(whole, h);
    match FindCR(b, 0)
    case Npos =>
    case At(e) =>
      assert b[e] == whole[h + e] == CR && e >= 4;
      if |buffer| > 4 {
        assert h + e >= |buffer|;
      }
  }

  /** When the string is cut at 256 characters, the last header is either the one in front or starts
      no earlier than the last three characters of a buffer that had only one. */
  lemma TrimAfterRead(buffer: seq<byte>, chunk: seq<byte>, h: nat)
    requires BufferOk(buffer) && 0 < |chunk| <= READ_SIZE
    requires FirstHeaderAt(buffer + chunk, h)
    requires var b := (buffer + chunk)[h..]; NoCR(b) && HeaderAt(b, 0)
    ensures BufferOk(Trim((buffer + chunk)[h..]))
  {
    var whole := buffer + chunk;
    var b := whole[h..];
    if |b| > TRIM_LIMIT {
      assert HeaderAt(buffer, 0) && HeaderAt(whole, 0);
      assert h == 0 && b == whole;
      var r := Trim(b);
      assert NoCR(r);
      var k := |b| - |r|;
      if |r| > 4 {
        assert k > 0 && HeaderAt(b, k);
        assert k >= 4;
        if |buffer| > TRIM_LIMIT {
          assert !HeaderAt(buffer, k);
          assert k + 4 > |buffer|;
        }
      }
    }
  }

  lemma KeepsBufferOk(buffer: seq<byte>, chunk: seq<byte>, h: nat)
    requires BufferOk(buffer) && 0 < |chunk| <= READ_SIZE
    requires FirstHeaderAt(buffer + chunk, h)
    ensures var r := Drain((buffer + chunk)[h..]).rest;
      (|r| > TRIM_LIMIT ==> HeaderAt(r, 0)) && BufferOk(Trim(r))
  {
    DrainAfterRead(buffer, chunk, h);
    if NoCR((buffer + chunk)[h..]) {
      TrimAfterRead(buffer, chunk, h);
    }
  }

  /** What one read does to `receivedPacket`, and what it delivers. */
  function Feed(buffer: seq<byte>, chunk: seq<byte>): (d: Drained)
    requires BufferOk(buffer) && 0 < |chunk| <= READ_SIZE
    ensures BufferOk(d.rest) && Short(d.frames)
  {
    match FindHeader(buffer + chunk, 0)
    case Npos => Drained(LastFour(buffer + chunk), [])
    case At(h) =>
      KeepsBufferOk(buffer, chunk, h);
      var d := Drain((buffer + chunk)[h..]);
      Drained(Trim(d.rest), d.frames)
  }

  /** The buffer bound: at most 380 characters between reads and 508 right after one; and what is
      kept is always the end of what was there. */
  lemma FeedBounds(buffer: seq<byte>, chunk: seq<byte>)
    requires BufferOk(buffer) && 0 < |chunk| <= READ_SIZE
    ensures |buffer + chunk| <= BUFFER_BOUND + READ_SIZE
    ensures |Feed(buffer, chunk).rest| <= BUFFER_BOUND && IsSuffix(Feed(buffer, chunk).rest, buffer + chunk)
  {
    var b := buffer + chunk;
    match FindHeader(b, 0)
    case Npos =>
    case At(h) =>
      KeepsBufferOk(buffer, chunk, h);
      var r := Drain(b[h..]).rest;
      SuffixTrans(Trim(r), r, b[h..]);
      SuffixTrans(Trim(r), b[h..], b);
  }

  // ---------- A whole call ----------

  /** How a call ends: with the payloads of its last read, by running out of ticks, or still waiting
      when the observed run ends. */
  datatype Outcome = Delivered(frames: seq<seq<byte>>) | TimedOut | Waiting

  datatype Run = Run(outcome: Outcome, consumed: nat)

  function Tick(timeout: nat): nat {
    if timeout == 0 || timeout == WAIT_FOREVER then timeout else timeout - 1
  }

  /** One turn of the outer loop: what is left of `receivedPacket`, the ticks left, the payloads
      delivered, and the number of bytes read. */
  datatype Turn = Turn(rest: seq<byte>, timeout: nat, frames: seq<seq<byte>>, n: nat)

  function ReceiveTurn(wire: seq<byte>, poll: nat, timeout: nat, buffer: seq<byte>): (t: Turn)
    requires BufferOk(buffer)
    ensures BufferOk(t.rest) && t.n <= |wire| && Short(t.frames)
  {
    var n := Min(Min(poll, |wire|), READ_SIZE);
    if n == 0 then Turn(buffer, Tick(timeout), [], 0)
    else
      var d := Feed(buffer, UpperAll(wire[..n]));
      Turn(d.rest, timeout, d.frames, n)
  }

  function Advance(n: nat, run: Run): Run {
    Run(run.outcome, n + run.consumed)
  }

  /** The receive loop over the answers `polls`, from the string `buffer` on. */
  function ReceiveRun(wire: seq<byte>, polls: seq<nat>, timeout: nat, buffer: seq<byte>): (run: Run)
    requires BufferOk(buffer)
    ensures run.consumed <= |wire|
    ensures run.outcome.Delivered? ==> run.outcome.frames != [] && Short(run.outcome.frames)
    decreases |polls|
  {
    if polls == [] then Run(Waiting, 0)
    else
      var t := ReceiveTurn(wire, polls[0], timeout, buffer);
      if t.frames != [] then Run(Delivered(t.frames), t.n)
      else if t.timeout == 0 then Run(TimedOut, t.n)
      else Advance(t.n, ReceiveRun(wire[t.n..], polls[1..], t.timeout, t.rest))
  }

  /** The caller's buffer after the payloads have been copied to its start one after the other. */
  function Overlay(out: seq<byte>, frames: seq<seq<byte>>): (r: seq<byte>)
    requires |out| >= MAX_PAYLOAD && Short(frames)
    ensures |r| == |out|
    decreases |frames|
  {
    if frames == [] then out
    else
      var n := |frames| - 1;
      frames[n] + Overlay(out, frames[..n])[|frames[n]|..]
  }

  predicate Short(frames: seq<seq<byte>>) {
    forall i :: 0 <= i < |frames| ==> |frames[i]| <= MAX_PAYLOAD
  }

  /** The capital-letter conversion of a read, in place. */
  method Capitalise(text: array<byte>, count: nat)
    requires count <= text.Length
    modifies text
    ensures text[..count] == UpperAll(old(text[..count]))
  {
    for i := 0 to count
      invariant forall k :: 0 <= k < i ==> text[k] == Upper(old(text[k]))
      invariant forall k :: i <= k < text.Length ==> text[k] == old(text[k])
    {
      if 0x61 <= text[i] <= 0x7A {
        text[i] := text[i] - 0x20;
      }
    }
  }

  method CopyOut(p64Buffer: array<byte>, str: seq<byte>)
    requires |str| <= p64Buffer.Length
    modifies p64Buffer
    ensures p64Buffer[..] == str + old(p64Buffer[..])[|str|..]
  {
    for i := 0 to |str|
      invariant forall k :: 0 <= k < i ==> p64Buffer[k] == str[k]
      invariant forall k :: i <= k < p64Buffer.Length ==> p64Buffer[k] == old(p64Buffer[k])
    {
      p64Buffer[i] := str[i];
    }
  }

  /** The body of the inner loop. */
  method DrainOnce(packet: seq<byte>, end: nat, p64Buffer: array<byte>)
    returns (rest: seq<byte>, frame: Index, ghost frames: seq<seq<byte>>)
    requires FirstCRAt(packet, end) && p64Buffer.Length >= MAX_PAYLOAD
    modifies p64Buffer
    ensures Drained(rest, frames) == DrainTurn(packet, end)
    ensures frame == if frames == [] then Npos else At(|frames[0]|)
    ensures frames == [] ==> p64Buffer[..] == old(p64Buffer[..])
    ensures frames != [] ==> |frames| == 1 && |frames[0]| <= MAX_PAYLOAD
    ensures frames != [] ==> p64Buffer[..] == frames[0] + old(p64Buffer[..])[|frames[0]|..]
  {
    rest, frame, frames := packet, Npos, [];
    FirstCR(packet, end);
    var indexEOF := At(end);
    var indexHeader := FindHeader(rest, 0);
    if indexHeader.At? {
      rest := rest[indexHeader.i + 4..];
      indexEOF := FindCR(rest, 0);
      if indexEOF.At? {
        var str := rest[..indexEOF.i];
        if |str| <= MAX_PAYLOAD {
          CopyOut(p64Buffer, str);
          frame, frames := At(|str|), [str];
        }
      }
    }
    rest := rest[(match indexEOF case Npos => 0 case At(i) => i + 1)..];
  }

  lemma DrainStep(b: seq<byte>, e: nat, done: seq<seq<byte>>)
    requires FirstCRAt(b, e)
    ensures var t := DrainTurn(b, e);
      Drain(b).rest == Drain(t.rest).rest
      && done + Drain(b).frames == (done + t.frames) + Drain(t.rest).frames
  {
    hide DrainTurn, FindCR, FirstCRAt, IsSuffix, Short, NoCR;
    FirstCR(b, e);
  }

  lemma DrainDone(b: seq<byte>)
    requires FindCR(b, 0).Npos?
    ensures Drain(b) == Drained(b, [])
  {}

  method DrainLoop(packet: seq<byte>, p64Buffer: array<byte>) returns (rest: seq<byte>, frame: Index)
    requires p64Buffer.Length >= MAX_PAYLOAD
    modifies p64Buffer
    ensures rest == Drain(packet).rest
    ensures frame == LastSize(Drain(packet).frames)
    ensures p64Buffer[..] == Overlay(old(p64Buffer[..]), Drain(packet).frames)
  {
    hide Drain, DrainTurn, FindCR, NoCR, IsSuffix;
    rest, frame := packet, Npos;
    ghost var out, done := p64Buffer[..], [];
    var indexEOF := FindCR(rest, 0);
    while indexEOF.At?
      invariant indexEOF == FindCR(rest, 0)
      invariant Drain(packet).rest == Drain(rest).rest
      invariant Drain(packet).frames == done + Drain(rest).frames
      invariant Short(done) && frame == LastSize(done)
      invariant p64Buffer[..] == Overlay(out, done)
      decreases |rest|
    {
      DrainStep(rest, indexEOF.i, done);
      var size: Index;
      ghost var frames;
      rest, size, frames := DrainOnce(rest, indexEOF.i, p64Buffer);
      if size.At? {
        frame := size;
        OverlayAppend(out, done, frames[0]);
        assert frames == [frames[0]];
      } else {
        assert done + frames == done;
      }
      done := done + frames;
      indexEOF := FindCR(rest, 0);
    }
    DrainDone(rest);
    assert done + Drain(rest).frames == done;
  }

  function LastSize(frames: seq<seq<byte>>): Index {
    if frames == [] then Npos else At(|frames[|frames| - 1]|)
  }

  lemma OverlayAppend(out: seq<byte>, frames: seq<seq<byte>>, p: seq<byte>)
    requires Short(frames) && |p| <= MAX_PAYLOAD <= |out|
    ensures Short(frames + [p])
    ensures Overlay(out, frames + [p]) == p + Overlay(out, frames)[|p|..]
  {
    assert (frames + [p])[..|frames|] == frames;
  }

  /** One read, converted to capital letters. */
  method ReadChunk(uart: Uart<byte>, n: nat) returns (packet: seq<byte>)
    requires n <= READ_SIZE && n <= |uart.wire|
    modifies uart`wire
    ensures uart.wire == old(uart.wire)[n..]
    ensures packet == UpperAll(old(uart.wire)[..n])
  {
    var data := uart.Read(n);
    var cmdbuf := new byte[n](i requires 0 <= i < n => data[i]);
    assert cmdbuf[..n] == data;
    Capitalise(cmdbuf, n);
    packet := cmdbuf[..n];
  }

  /** What the outer loop does with a read. */
  method Search(receivedPacket: seq<byte>, packet: seq<byte>, p64Buffer: array<byte>)
    returns (rest: seq<byte>, frame: Index)
    requires BufferOk(receivedPacket) && 0 < |packet| <= READ_SIZE && p64Buffer.Length >= MAX_PAYLOAD
    modifies p64Buffer
    ensures rest == Feed(receivedPacket, packet).rest
    ensures frame == LastSize(Feed(receivedPacket, packet).frames)
    ensures p64Buffer[..] == Overlay(old(p64Buffer[..]), Feed(receivedPacket, packet).frames)
  {
    rest, frame := receivedPacket + packet, Npos;
    var indexHeader := FindHeader(rest, 0);
    match indexHeader {
      case Npos =>
        rest := LastFour(rest);
      case At(h) =>
        KeepsBufferOk(receivedPacket, packet, h);
        rest, frame := DrainLoop(rest[h..], p64Buffer);
        rest := Trim(rest);
    }
  }

  /** What the caller finds in its buffer after a call. */
  function ReturnedBuffer(out: seq<byte>, outcome: Outcome): seq<byte>
    requires |out| >= MAX_PAYLOAD && (outcome.Delivered? ==> Short(outcome.frames))
  {
    match outcome
    case Delivered(frames) => Overlay(out, frames)
    case _ => out
  }

  /** The returned count: the size of the last payload, zero for none. */
  function ReturnedCount(outcome: Outcome): int {
    match outcome
    case Delivered(frames) => (match LastSize(frames) case At(size) => size case Npos => 0)
    case _ => 0
  }

  /** The body of the outer loop. */
  method ReceiveOnce(uart: Uart<byte>, receivedPacket: seq<byte>, timeout: nat, p64Buffer: array<byte>)
    returns (rest: seq<byte>, left: nat, frame: Index, ghost t: Turn)
    requires uart.polls != [] && BufferOk(receivedPacket) && p64Buffer.Length >= MAX_PAYLOAD
    modifies uart, p64Buffer
    ensures t == ReceiveTurn(old(uart.wire), old(uart.polls)[0], timeout, receivedPacket)
    ensures rest == t.rest && left == t.timeout && frame == LastSize(t.frames)
    ensures uart.wire == old(uart.wire)[t.n..] && uart.polls == old(uart.polls)[1..]
    ensures p64Buffer[..] == Overlay(old(p64Buffer[..]), t.frames)
  {
    rest, left, frame := receivedPacket, timeout, Npos;
    t := ReceiveTurn(uart.wire, uart.polls[0], timeout, receivedPacket);
    var dataAvailable := uart.RxCount();
    if dataAvailable > 0 {
      var packet := ReadChunk(uart, if READ_SIZE > dataAvailable then dataAvailable else READ_SIZE);
      rest, frame := Search(receivedPacket, packet, p64Buffer);
    } else {
      left := Tick(timeout);
    }
  }

  method ReceiveAltoFrame(uart: Uart<byte>, p64Buffer: array<byte>, ticks: nat) returns (ret: int, ghost run: Run)
    requires p64Buffer.Length >= MAX_PAYLOAD
    modifies uart, p64Buffer
    ensures run == ReceiveRun(old(uart.wire), old(uart.polls), ticks, [])
    ensures uart.wire == old(uart.wire)[run.consumed..]
    ensures ret == ReturnedCount(run.outcome)
    ensures p64Buffer[..] == ReturnedBuffer(old(p64Buffer[..]), run.outcome)
  {
    ret := 0;
    var timeout, receivedPacket, again := ticks, [], true;
    ghost var consumed: nat, wire, out := 0, uart.wire, p64Buffer[..];
    ghost var whole := ReceiveRun(uart.wire, uart.polls, ticks, []);
    run := whole;
    while again && uart.polls != []
      invariant BufferOk(receivedPacket)
      invariant consumed <= |wire| && uart.wire == wire[consumed..]
      invariant again ==> whole == Advance(consumed, ReceiveRun(uart.wire, uart.polls, timeout, receivedPacket))
      invariant again ==> ret == 0 && p64Buffer[..] == out
      invariant !again ==> whole.consumed == consumed && ret == ReturnedCount(whole.outcome)
      invariant !again ==> p64Buffer[..] == ReturnedBuffer(out, whole.outcome)
      decreases |uart.polls|
    {
      var frame: Index;
      ghost var t;
      receivedPacket, timeout, frame, t := ReceiveOnce(uart, receivedPacket, timeout, p64Buffer);
      consumed := consumed + t.n;
      if frame.At? {
        ret := frame.i;
      }
      again := timeout != 0 && frame.Npos?;
    }
  }
}
