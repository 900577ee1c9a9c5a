/**
The HTTP server's reading of a connection: the line reader, the disposal of an unwanted body, and one
transaction.
 */
module HttpConnection {
  import opened Options
  import opened HttpRequest

  /** The receiving end of a connection: the bytes that will still come. */
  class Socket {
    var rest: string

    /** `recv`: some bytes, at least one and at most as many as asked for, or none at the end. */
    method Recv(buf: array<char>, len: nat) returns (n: nat)
      requires 0 < len <= buf.Length
      modifies this, buf
      ensures n <= len && n <= |old(rest)| && (n == 0 <==> old(rest) == "")
      ensures rest == old(rest)[n..]
    {
      if rest == "" { return 0; }
      n :| 1 <= n <= len && n <= |rest|;
      for i := 0 to n
        invariant rest == old(rest)
      {
        buf[i] := rest[i];
      }
      rest := rest[n..];
    }

    /** `recv` of a few bytes at a place in the buffer: all of them come, or the stream has ended. */
    method RecvAll(buf: array<char>, at: nat, len: nat) returns (ok: bool)
      requires 0 < len && at + len <= buf.Length
      modifies this, buf
      ensures ok <==> |old(rest)| >= len
      ensures ok ==> rest == old(rest)[len..] && buf[..at + len] == old(buf[..at]) + old(rest)[..len]
    {
      if |rest| < len { return false; }
      for i := 0 to len
        invariant rest == old(rest)
        invariant buf[..at + i] == old(buf[..at]) + old(rest)[..i]
      {
        buf[at + i] := rest[i];
        assert old(rest)[..i + 1] == old(rest)[..i] + [old(rest)[i]];
        assert buf[..at + i + 1] == buf[..at + i] + [buf[at + i]];
      }
      rest := rest[len..];
      ok := true;
    }
  }

  /** What has been read of a line so far holds no CRLF. */
  ghost predicate Unfinished(s: string, len: nat) {
    2 <= len <= |s| && forall j: nat :: j + 1 < len ==> !CrlfAt(s, j)
  }

  lemma ReadingOf(s: string, len: nat, bufLen: nat)
    requires bufLen >= 3 && Unfinished(s, len) && len < bufLen
    ensures |s| == len ==> ReadLine(s, bufLen) == Broken
    ensures |s| > len && len + 1 == bufLen ==> ReadLine(s, bufLen) == TooLong
    ensures |s| > len && len + 1 < bufLen && CrlfAt(s, len - 1) ==> ReadLine(s, bufLen) == Text(len + 1)
    ensures |s| > len && !CrlfAt(s, len - 1) ==> Unfinished(s, len + 1)
  {
    var k := FirstCrlf(s);
    if k < |s| { assert CrlfAt(s, k); }
  }

  /** The next line, in the buffer and with a terminator, every write within the buffer. */
  method HttpRecvLine(s: Socket, buf: array<char>) returns (reading: Reading)
    requires buf.Length >= 3
    modifies s, buf
    ensures reading == ReadLine(old(s.rest), buf.Length)
    ensures reading.Text? ==>
      && buf[..reading.len] == old(s.rest)[..reading.len] && buf[reading.len] == '\0'
      && s.rest == old(s.rest)[reading.len..]
    ensures reading.EndOfHeader? ==> s.rest == old(s.rest)[2..]
  {
    hide CrlfAt, ReadLine, FirstCrlf;
    ghost var was := s.rest;
    var ok := s.RecvAll(buf, 0, 2);
    assert old(buf[..0]) == [];
    StartOf(was, buf.Length);
    if !ok { return Broken; }
    assert buf[..2] == was[..2];
    assert buf[0] == was[0] && buf[1] == was[1];
    if buf[0] == '\r' && buf[1] == '\n' { return EndOfHeader; }
    var len := 2;
    while true
      invariant 2 <= len < buf.Length && Unfinished(was, len)
      invariant s.rest == was[len..] && buf[..len] == was[..len]
      decreases |s.rest|
    {
      ReadingOf(was, len, buf.Length);
      ok := s.RecvAll(buf, len, 1);
      if !ok { return Broken; }
      assert was[..len + 1] == was[..len] + was[len..][..1];
      len := len + 1;
      assert buf[..len] == was[..len];
      if len == buf.Length { return TooLong; }
      CrlfIs(was, len - 2);
      assert buf[len - 2] == buf[..len][len - 2] && buf[len - 1] == buf[..len][len - 1];
      if buf[len - 2] == '\r' && buf[len - 1] == '\n' { break; }
    }
    buf[len] := '\0';
    reading := Text(len);
  }

  lemma CrlfIs(s: string, i: nat)
    requires i + 1 < |s|
    ensures CrlfAt(s, i) <==> s[i] == '\r' && s[i + 1] == '\n'
  {}

  lemma StartOf(s: string, bufLen: nat)
    requires bufLen >= 3
    ensures |s| < 2 ==> ReadLine(s, bufLen) == Broken
    ensures |s| >= 2 && s[0] == '\r' && s[1] == '\n' ==> ReadLine(s, bufLen) == EndOfHeader
    ensures |s| >= 2 && !(s[0] == '\r' && s[1] == '\n') ==> Unfinished(s, 2)
  {}

  /** Read and drop a body, in pieces of up to 32 bytes as they come. */
  method Handle404(s: Socket, length: int) returns (contentLength: int)
    modifies s
    ensures contentLength == Dump(old(s.rest), length).status
    ensures s.rest == Dump(old(s.rest), length).rest
    ensures length <= 0 ==> contentLength == length && s.rest == old(s.rest)
    ensures 0 < length <= |old(s.rest)| ==> contentLength == 0 && s.rest == old(s.rest)[length..]
    ensures length > |old(s.rest)| ==> contentLength == length - |old(s.rest)| && s.rest == ""
  {
    var buf := new char[32];
    contentLength := length;
    while contentLength > 0
      invariant length <= 0 ==> contentLength == length && s.rest == old(s.rest)
      invariant length > 0 ==> 0 <= contentLength <= length && length - contentLength <= |old(s.rest)|
      invariant length > 0 ==> s.rest == old(s.rest)[length - contentLength..]
      decreases contentLength
    {
      var len := if contentLength > buf.Length then buf.Length else contentLength;
      len := s.Recv(buf, len);
      if len == 0 { break; }
      contentLength := contentLength - len;
    }
  }

  lemma FieldsUnfold(s: string, bufLen: nat, contentLength: int, len: nat)
    requires bufLen >= 3 && ReadLine(s, bufLen) == Text(len)
    ensures Fields(s, bufLen, contentLength)
      == var h := Fields(s[len..], bufLen, AfterField(s[..len], contentLength)); h.(size := len + h.size)
  {
    hide ReadLine, AfterField;
  }

  /** The fields of a header up to its empty line. */
  method RecvFields(s: Socket, line: array<char>)
    returns (ended: bool, contentLength: int, reply: Option<Error>)
    requires line.Length >= 3
    modifies s, line
    ensures var h := Fields(old(s.rest), line.Length, 0);
      && ended == h.ended && reply == h.reply
      && (ended ==> contentLength == h.contentLength && s.rest == old(s.rest)[h.size..])
  {
    hide ReadLine, AfterField, Fields;
    ghost var start := s.rest;
    ghost var done := 0;
    contentLength, reply := 0, None;
    while true
      invariant reply == None
      invariant 0 <= done <= |start| && s.rest == start[done..]
      invariant Fields(start, line.Length, 0)
        == var h := Fields(s.rest, line.Length, contentLength); h.(size := done + h.size)
      decreases |s.rest|
    {
      ghost var before := s.rest;
      var reading := HttpRecvLine(s, line);
      FieldsEnd(before, line.Length, contentLength);
      if !reading.Text? {
        return reading.EndOfHeader?, contentLength,
          if reading.TooLong? then Some(HTTP_SC_REQUEST_ENTITY_TOO_LARGE) else None;
      }
      FieldsUnfold(before, line.Length, contentLength, reading.len);
      contentLength := AfterField(line[..reading.len], contentLength);
      done := done + reading.len;
    }
  }

  lemma FieldsEnd(s: string, bufLen: nat, contentLength: int)
    requires bufLen >= 3
    ensures var r := ReadLine(s, bufLen); var h := Fields(s, bufLen, contentLength);
      && (r.EndOfHeader? ==> h == Header(true, contentLength, 2, None))
      && (r.TooLong? ==> h == Header(false, contentLength, 0, Some(HTTP_SC_REQUEST_ENTITY_TOO_LARGE)))
      && (r.Broken? ==> h == Header(false, contentLength, 0, None))
  {}

  /** The handlers' turn, with the body still on the connection. */
  method Answer(c: Config, s: Socket, request: Request) returns (status: int, reply: Option<Error>, stop: bool)
    modifies s
    ensures Outcome(status, s.rest, reply, stop) == Answered(c, request, old(s.rest))
  {
    hide Process;
    status, reply, stop := 0, None, false;
    match Process(c.handlers, request) {
      case Declines =>
        status := Handle404(s, request.contentLength);
        reply := Some(HTTP_SC_NOT_FOUND);
      case Handled(taken) =>
        s.rest := Drop(s.rest, taken);
      case HandledStop(taken) =>
        s.rest := Drop(s.rest, taken);
        stop := true;
      case ErrorHandled(taken) =>
        s.rest := Drop(s.rest, taken);
        status := 1;
    }
  }

  /** One transaction on a connection: its status, the error sent, and whether the server is to stop. */
  method TransactOn(c: Config, s: Socket) returns (status: int, reply: Option<Error>, stop: bool)
    requires c.lineLen >= 3
    modifies s
    ensures var o := Transact(c, old(s.rest)); status == o.status && reply == o.reply && stop == o.stop
    ensures status == 0 ==> s.rest == Transact(c, old(s.rest)).rest
  {
    hide ReadLine, Fields, ParseRequestLine, Answered;
    status, reply, stop := 1, None, false;
    var line := new char[c.lineLen];
    var reading := HttpRecvLine(s, line);
    if !reading.Text? {
      if reading.TooLong? { reply := Some(HTTP_SC_REQUEST_ENTITY_TOO_LARGE); }
      return;
    }
    var parsed := ParseRequestLine(line[..reading.len], c.uriLen);
    if parsed.Bad? {
      reply := Some(parsed.error);
      return;
    }
    var ended, contentLength;
    ended, contentLength, reply := RecvFields(s, line);
    if !ended { return; }
    reply := None;
    var request := parsed.request.(contentLength := contentLength);
    status, reply, stop := Answer(c, s, request);
  }
}
