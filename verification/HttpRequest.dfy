/**
What the HTTP server takes from a connection for one request: lines up to the empty one, and the body
of the announced length. Texts are the bytes of the stream.
 */
module HttpRequest {
  import opened Options
  import opened Integers

  // ---------- Lines ----------

  predicate CrlfAt(s: string, i: nat) {
    i + 1 < |s| && s[i] == '\r' && s[i + 1] == '\n'
  }

  /** The first CRLF, or the length if there is none. */
  function FirstCrlf(s: string): (k: nat)
    ensures k <= |s| && (k < |s| ==> CrlfAt(s, k))
    ensures forall j: nat :: j < k ==> !CrlfAt(s, j)
  {
    if s == "" || CrlfAt(s, 0) then 0
    else
      assert forall j: nat :: j < |s| - 1 ==> CrlfAt(s[1..], j) == CrlfAt(s, j + 1);
      assert forall j: nat :: 0 < j < |s| ==> CrlfAt(s, j) == CrlfAt(s[1..], j - 1);
      1 + FirstCrlf(s[1..])
  }

  /** What a call of `httpRecvLine` finds: a line of `len` bytes with its CRLF, the empty line, a line
      that does not fit, or the end of the stream. */
  datatype Reading = Text(len: nat) | EndOfHeader | TooLong | Broken

  function ReadLine(s: string, bufLen: nat): (r: Reading)
    requires bufLen >= 3
    ensures r.Text? ==> 3 <= r.len <= |s| && r.len < bufLen && CrlfAt(s[r.len - 2..], 0)
    ensures r.EndOfHeader? ==> |s| >= 2
  {
    if |s| < 2 then Broken
    else
      var k := FirstCrlf(s);
      if k == 0 then EndOfHeader
      else if k + 2 < bufLen && k < |s| then Text(k + 2)
      else if |s| < bufLen then Broken
      else TooLong
  }

  // ---------- C strings ----------

  function Index(s: string, c: char): (k: nat)
    ensures k <= |s| && (k < |s| ==> s[k] == c)
    ensures forall j :: 0 <= j < k ==> s[j] != c
  {
    if s == "" || s[0] == c then 0 else 1 + Index(s[1..], c)
  }

  function CString(s: string): string { s[..Index(s, '\0')] }

  predicate StartsWith(s: string, p: string) { |p| <= |s| && s[..|p|] == p }

  predicate IsSpace(c: char) { c == ' ' || '\t' <= c <= '\r' }

  predicate IsDigit(c: char) { '0' <= c <= '9' }

  /** The number in the leading digits. */
  function Digits(s: string, value: nat): nat {
    if s == "" || !IsDigit(s[0]) then value else Digits(s[1..], 10 * value + (s[0] as int - '0' as int))
  }

  function Atoi(s: string): int {
    if s == "" then 0
    else if IsSpace(s[0]) then Atoi(s[1..])
    else if s[0] == '-' then 0 - Digits(s[1..], 0)
    else if s[0] == '+' then Digits(s[1..], 0)
    else Digits(s, 0)
  }

  // ---------- The request line and the fields ----------

  datatype Tag =
    | TAG_GET | TAG_POST | TAG_PUT | TAG_PATCH | TAG_DELETE
    | TAG_CLEN | TAG_HOST | TAG_DONTCARE

  const ContentLength := "Content-Length: "

  function HttpExtractTag(tag: string): Tag {
    if StartsWith(tag, "GET") then TAG_GET
    else if StartsWith(tag, "PUT") then TAG_PUT
    else if StartsWith(tag, "PATCH") then TAG_PATCH
    else if StartsWith(tag, "DELETE") then TAG_DELETE
    else if StartsWith(tag, "POST") then TAG_POST
    else if StartsWith(tag, ContentLength) then TAG_CLEN
    else if StartsWith(tag, "Host: ") then TAG_HOST
    else TAG_DONTCARE
  }

  predicate IsMethod(tag: Tag) {
    tag.TAG_GET? || tag.TAG_POST? || tag.TAG_PUT? || tag.TAG_PATCH? || tag.TAG_DELETE?
  }

  datatype Request = Request(tag: Tag, uri: string, uriArgs: Option<string>, contentLength: int)

  datatype Error = HTTP_SC_BAD_REQUEST | HTTP_SC_REQUEST_ENTITY_TOO_LARGE | HTTP_SC_NOT_FOUND

  datatype Parsed = Good(request: Request) | Bad(error: Error)

  function SkipSpaces(s: string): (r: string)
    ensures r == "" || r[0] != ' '
  {
    if s != "" && s[0] == ' ' then SkipSpaces(s[1..]) else s
  }

  /** The request line: a method, blanks, the URI, a blank and the rest. */
  function ParseRequestLine(bytes: string, uriLen: nat): Parsed {
    var line := CString(bytes);
    var tag := HttpExtractTag(line);
    var at := Index(line, ' ');
    if !IsMethod(tag) || at == |line| then Bad(HTTP_SC_BAD_REQUEST)
    else
      var beg := SkipSpaces(line[at..]);
      var end := Index(beg, ' ');
      if end == |beg| then Bad(HTTP_SC_BAD_REQUEST)
      else if uriLen <= end then Bad(HTTP_SC_REQUEST_ENTITY_TOO_LARGE)
      else
        var uri := beg[..end];
        var mark := Index(uri, '?');
        Good(Request(tag, uri[..mark], if mark < end then Some(uri[mark + 1..]) else None, 0))
  }

  /** The content length after a field line: a later announcement replaces an earlier one. */
  function AfterField(bytes: string, contentLength: int): int {
    var line := CString(bytes);
    if HttpExtractTag(line).TAG_CLEN? then Atoi(line[16..]) else contentLength
  }

  /** The rest of a header: whether it was read to its end, its content length, its size and
      the error sent if it did not fit. */
  datatype Header = Header(ended: bool, contentLength: int, size: nat, reply: Option<Error>)

  function Fields(s: string, bufLen: nat, contentLength: int): (h: Header)
    requires bufLen >= 3
    ensures h.ended ==> 2 <= h.size <= |s|
    decreases |s|
  {
    match ReadLine(s, bufLen)
    case Text(len) =>
      var h := Fields(s[len..], bufLen, AfterField(s[..len], contentLength));
      h.(size := len + h.size)
    case EndOfHeader => Header(true, contentLength, 2, None)
    case TooLong => Header(false, contentLength, 0, Some(HTTP_SC_REQUEST_ENTITY_TOO_LARGE))
    case Broken => Header(false, contentLength, 0, None)
  }

  // ---------- The end of the header ----------

  predicate BlankAt(s: string, i: nat) { CrlfAt(s, i) && CrlfAt(s, i + 2) }

  /** The first CRLF CRLF. */
  predicate FirstBlank(s: string, i: nat) {
    BlankAt(s, i) && forall j: nat :: j < i ==> !BlankAt(s, j)
  }

  lemma BlankShifts(s: string, len: nat, i: nat)
    requires len <= |s|
    ensures BlankAt(s[len..], i) == BlankAt(s, len + i)
    ensures CrlfAt(s[len..], i) == CrlfAt(s, len + i)
  {}

  /** Before the end of the first line there is no blank line, and the first one from there on stays
      the first. */
  lemma FirstBlankFromLine(s: string, k: nat, i: nat)
    requires k == FirstCrlf(s) && FirstBlank(s[k..], i)
    ensures FirstBlank(s, k + i)
  {
    BlankShifts(s, k, i);
    forall j: nat | j < k + i ensures !BlankAt(s, j) {
      if j >= k {
        BlankShifts(s, k, j - k);
        assert !BlankAt(s[k..], j - k);
      }
    }
  }

  lemma BlankHere(s: string)
    requires |s| >= 2 && CrlfAt(s, 0) && FirstCrlf(s[2..]) == 0 && |s[2..]| >= 2
    ensures FirstBlank(s, 0)
  {
    BlankShifts(s, 2, 0);
  }

  lemma BlankAfterTwo(s: string, i: nat)
    requires |s| >= 2 && CrlfAt(s, 0) && FirstCrlf(s[2..]) > 0 && FirstBlank(s[2..], i)
    ensures FirstBlank(s, 2 + i)
  {
    BlankShifts(s, 2, i);
    BlankShifts(s, 2, 0);
    forall j: nat | j < 2 + i ensures !BlankAt(s, j) {
      if j >= 2 {
        BlankShifts(s, 2, j - 2);
        assert !BlankAt(s[2..], j - 2);
      }
    }
  }

  lemma FieldsStep(s: string, bufLen: nat, contentLength: int)
    requires bufLen >= 3 && Fields(s, bufLen, contentLength).ended
    ensures ReadLine(s, bufLen).Text? || ReadLine(s, bufLen).EndOfHeader?
    ensures ReadLine(s, bufLen).Text? ==>
      var len := ReadLine(s, bufLen).len;
      var h := Fields(s[len..], bufLen, AfterField(s[..len], contentLength));
      h.ended && Fields(s, bufLen, contentLength).size == len + h.size
    ensures ReadLine(s, bufLen).EndOfHeader? ==> Fields(s, bufLen, contentLength).size == 2
  {
    hide ReadLine, AfterField;
  }

  /** From the CRLF of one line on, the fields end at the first blank line. */
  lemma {:induction false} FieldsEndAtBlank(s: string, bufLen: nat, contentLength: int)
    requires bufLen >= 3 && |s| >= 2 && CrlfAt(s, 0)
    requires Fields(s[2..], bufLen, contentLength).ended
    ensures FirstBlank(s, Fields(s[2..], bufLen, contentLength).size - 2)
    decreases |s|
  {
    hide AfterField, FirstBlank, CrlfAt, FirstCrlf, Fields;
    var rest := s[2..];
    FieldsStep(rest, bufLen, contentLength);
    match ReadLine(rest, bufLen) {
      case Text(len) =>
        var next := rest[len - 2..];
        assert next[2..] == rest[len..];
        FieldsEndAtBlank(next, bufLen, AfterField(rest[..len], contentLength));
        var i := Fields(rest[len..], bufLen, AfterField(rest[..len], contentLength)).size - 2;
        FirstBlankFromLine(rest, len - 2, i);
        BlankAfterTwo(s, len - 2 + i);
      case EndOfHeader => BlankHere(s);
      case _ =>
    }
  }

  // ---------- One call of transact ----------

  /** What a URL handler answers, and how much of the body it has read; one that declines has read
      nothing. */
  datatype Answer = Declines | Handled(taken: nat) | HandledStop(taken: nat) | ErrorHandled(taken: nat)

  type Handler = Request -> Answer

  /** The first handler that does not decline decides. */
  function Process(handlers: seq<Handler>, request: Request): Answer {
    if handlers == [] then Declines
    else
      var answer := handlers[0](request);
      if answer.Declines? then Process(handlers[1..], request) else answer
  }

  datatype Config = Config(lineLen: nat, uriLen: nat, handlers: seq<Handler>)

  /** The outcome of a call: the session is kept exactly for status 0; what is left of the stream;
      the error sent, if any; and whether the server was told to stop. */
  datatype Outcome = Outcome(status: int, rest: string, reply: Option<Error>, stop: bool)

  function Drop(s: string, n: nat): string { if n <= |s| then s[n..] else "" }

  /** `handle404`: the body is read as far as it comes. */
  function Dump(s: string, contentLength: int): Outcome {
    var reply := Some(HTTP_SC_NOT_FOUND);
    if contentLength <= 0 then Outcome(contentLength, s, reply, false)
    else Outcome(contentLength - Min(contentLength, |s|), Drop(s, contentLength), reply, false)
  }

  function Answered(c: Config, request: Request, s: string): Outcome {
    match Process(c.handlers, request)
    case Declines => Dump(s, request.contentLength)
    case Handled(taken) => Outcome(0, Drop(s, taken), None, false)
    case HandledStop(taken) => Outcome(0, Drop(s, taken), None, true)
    case ErrorHandled(taken) => Outcome(1, Drop(s, taken), None, false)
  }

  /** The header of a request with its size, or the error to send if the request line or the fields
      cannot be read. */
  datatype Head = Read(request: Request, size: nat) | Unreadable(reply: Option<Error>)

  function ErrorOf(reading: Reading): Option<Error> {
    if reading.TooLong? then Some(HTTP_SC_REQUEST_ENTITY_TOO_LARGE) else None
  }

  function ReadHead(c: Config, s: string): (h: Head)
    requires c.lineLen >= 3
    ensures h.Read? ==> h.size <= |s|
  {
    var reading := ReadLine(s, c.lineLen);
    if !reading.Text? then Unreadable(ErrorOf(reading))
    else
      match ParseRequestLine(s[..reading.len], c.uriLen)
      case Bad(error) => Unreadable(Some(error))
      case Good(request) =>
        var h := Fields(s[reading.len..], c.lineLen, 0);
        if h.ended then Read(request.(contentLength := h.contentLength), reading.len + h.size)
        else Unreadable(h.reply)
  }

  /** After a failed call the session is closed, and what is left of its stream does not matter. */
  function Transact(c: Config, s: string): Outcome
    requires c.lineLen >= 3
  {
    match ReadHead(c, s)
    case Unreadable(reply) => Outcome(1, "", reply, false)
    case Read(request, size) => Answered(c, request, s[size..])
  }

  // ---------- Framing ----------

  /** The header could be read and every handler declines the request. */
  predicate Untaken(c: Config, s: string)
    requires c.lineLen >= 3
  {
    var h := ReadHead(c, s);
    h.Read? && Process(c.handlers, h.request).Declines?
  }

  /** A header that could be read was consumed exactly through the first CRLF CRLF. */
  lemma HeadEndsAtBlank(c: Config, s: string)
    requires c.lineLen >= 3 && ReadHead(c, s).Read?
    ensures 4 <= ReadHead(c, s).size && FirstBlank(s, ReadHead(c, s).size - 4)
  {
    hide ParseRequestLine, FirstBlank, AfterField, CrlfAt, FirstCrlf, Fields;
    var len := ReadLine(s, c.lineLen).len;
    assert s[len - 2..][2..] == s[len..];
    FieldsEndAtBlank(s[len - 2..], c.lineLen, 0);
    FirstBlankFromLine(s, len - 2, Fields(s[len..], c.lineLen, 0).size - 2);
  }

  /** When no handler takes a request, the session is kept exactly if the announced length is not
      negative and the whole body has come; and then the call has consumed the header through the
      first CRLF CRLF and as many bytes after it as announced. */
  lemma KeptSessionIsAligned(c: Config, s: string)
    requires c.lineLen >= 3 && Untaken(c, s)
    ensures var head := ReadHead(c, s); var length := head.request.contentLength;
      && 4 <= head.size <= |s| && FirstBlank(s, head.size - 4)
      && (Transact(c, s).status == 0 <==> 0 <= length <= |s| - head.size)
      && (Transact(c, s).status == 0 ==> Transact(c, s).rest == s[head.size + length..])
  {
    hide ReadHead, FirstBlank;
    HeadEndsAtBlank(c, s);
  }
}
