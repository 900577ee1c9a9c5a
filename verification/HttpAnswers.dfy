/**
What a call of the HTTP server comes to: the outcome of a declined message by its fields themselves, the
handler that decides, and the errors that are sent.
 */
module HttpAnswers {
  import opened Options
  import opened HttpRequest
  import opened HttpFraming

  // ---------- Declined messages by their fields ----------

  /** No line announces a length in the expected spelling. */
  predicate Silent(fields: seq<string>) {
    forall i :: 0 <= i < |fields| ==> !StartsWith(fields[i], ContentLength)
  }

  lemma {:induction false} SilentKeeps(fields: seq<string>, contentLength: int)
    requires Silent(fields)
    ensures Announced(fields, contentLength) == contentLength
    decreases |fields|
  {
    hide AfterField, StartsWith;
    if fields != [] {
      OtherFieldIgnored(fields[0], contentLength);
      SilentKeeps(fields[1..], contentLength);
    }
  }

  lemma {:induction false} AnnouncedSplits(a: seq<string>, b: seq<string>, contentLength: int)
    ensures Announced(a + b, contentLength) == Announced(b, Announced(a, contentLength))
    decreases |a|
  {
    hide AfterField;
    if a == [] {
      assert a + b == b;
    } else {
      assert (a + b)[1..] == a[1..] + b;
      AnnouncedSplits(a[1..], b, AfterField(a[0] + CRLF, contentLength));
    }
  }

  /** The field lines end in an announcement of `length`, and others that announce none. */
  predicate LastIs(fields: seq<string>, pre: seq<string>, length: nat, post: seq<string>) {
    fields == pre + [ContentLength + Decimal(length)] + post && Silent(post)
  }

  lemma LastCounts(fields: seq<string>, pre: seq<string>, length: nat, post: seq<string>, contentLength: int)
    requires LastIs(fields, pre, length, post)
    ensures Announced(fields, contentLength) == length
  {
    hide AfterField, Decimal, Silent;
    var last := ContentLength + Decimal(length);
    AnnouncedSplits(pre + [last], post, contentLength);
    AnnouncedLast(pre, last, contentLength);
    FieldRecognised(length, Announced(pre, contentLength));
    SilentKeeps(post, length);
  }

  /** A declined message: as many bytes behind its header as the last announcement says are read and
      dropped, or all if there are fewer, and then the status is what is missing. */
  lemma DeclinedOutcome(c: Config, m: Message, pre: seq<string>, length: nat, post: seq<string>, rest: string)
    requires GoodMessage(c, m) && Declined(c, m) && LastIs(m.fields, pre, length, post)
    ensures var s := m.body + rest;
      Transact(c, Encode(m) + rest)
        == if length <= |s| then Outcome(0, s[length..], Some(HTTP_SC_NOT_FOUND), false)
           else Outcome(length - |s|, "", Some(HTTP_SC_NOT_FOUND), false)
    ensures Transact(c, Encode(m) + rest).status == 0 && Transact(c, Encode(m) + rest).rest == rest
      <==> length == |m.body|
  {
    hide ReadHead, Announced, GoodMessage, LastIs, Encode;
    LastCounts(m.fields, pre, length, post, 0);
    HeadReads(c, m, rest);
    AlignedIff(c, m, rest);
    if length == 0 { assert (m.body + rest)[0..] == m.body + rest; }
  }

  /** Without an announcement nothing is dropped: the next call starts on the body. */
  lemma SilentOutcome(c: Config, m: Message, rest: string)
    requires GoodMessage(c, m) && Declined(c, m) && Silent(m.fields)
    ensures Transact(c, Encode(m) + rest) == Outcome(0, m.body + rest, Some(HTTP_SC_NOT_FOUND), false)
  {
    SilentKeeps(m.fields, 0);
    HeadReads(c, m, rest);
    hide ReadHead, Announced, GoodMessage, Silent, Encode;
  }

  /** A message whose last announcement is the length of its body, or that has neither. */
  ghost predicate Framed(m: Message) {
    || (Silent(m.fields) && m.body == "")
    || exists pre, post :: LastIs(m.fields, pre, |m.body|, post)
  }

  lemma FramedIsAnnounced(m: Message)
    requires Framed(m)
    ensures Announced(m.fields, 0) == |m.body|
  {
    if pre, post :| LastIs(m.fields, pre, |m.body|, post) {
      LastCounts(m.fields, pre, |m.body|, post, 0);
    } else {
      SilentKeeps(m.fields, 0);
    }
  }

  /** Any number of such messages in a row are served one by one. */
  lemma FramedPipeline(c: Config, ms: seq<Message>, rest: string)
    requires c.lineLen >= 3
    requires forall i :: 0 <= i < |ms| ==> GoodMessage(c, ms[i]) && Declined(c, ms[i]) && Framed(ms[i])
    ensures Serve(c, EncodeAll(ms) + rest, |ms|) == Some(rest)
  {
    hide Framed, GoodMessage, Declined, Announced;
    forall i | 0 <= i < |ms| ensures Announced(ms[i].fields, 0) == |ms[i].body| { FramedIsAnnounced(ms[i]); }
    PipelineStaysAligned(c, ms, rest);
  }

  // ---------- Handlers ----------

  /** The first `k` handlers decline. */
  predicate DeclinedBy(handlers: seq<Handler>, request: Request, k: nat)
    requires k <= |handlers|
  {
    forall j :: 0 <= j < k ==> handlers[j](request).Declines?
  }

  /** The first handler that does not decline decides, and none if all decline. */
  lemma {:induction false} FirstDecides(handlers: seq<Handler>, request: Request, k: nat)
    requires k <= |handlers| && DeclinedBy(handlers, request, k)
    ensures k < |handlers| && !handlers[k](request).Declines? ==> Process(handlers, request) == handlers[k](request)
    ensures k == |handlers| ==> Process(handlers, request) == Declines
    decreases |handlers|
  {
    if k > 0 {
      assert forall j :: 0 <= j < k - 1 ==> handlers[1..][j](request) == handlers[j + 1](request);
      FirstDecides(handlers[1..], request, k - 1);
    }
  }

  /** The outcome when handler `k` is the first that does not decline: the session is kept unless it
      reports an error, the server stops if it says so, and what it has read of the body is gone. */
  lemma HandlerDecides(c: Config, m: Message, rest: string, k: nat)
    requires GoodMessage(c, m) && k < |c.handlers|
    requires DeclinedBy(c.handlers, RequestOf(c, m), k) && !c.handlers[k](RequestOf(c, m)).Declines?
    ensures var o, s, answer := Transact(c, Encode(m) + rest), m.body + rest, c.handlers[k](RequestOf(c, m));
      && o.status == (if answer.ErrorHandled? then 1 else 0) && o.stop == answer.HandledStop? && o.reply == None
      && o.rest == if answer.taken <= |s| then s[answer.taken..] else ""
  {
    FirstDecides(c.handlers, RequestOf(c, m), k);
    HeadReads(c, m, rest);
    hide ReadHead, GoodMessage, RequestOf, Encode, Process;
  }

  // ---------- Errors ----------

  /** A first line that does not fit into the line buffer. */
  lemma LongLineRefused(c: Config, s: string)
    requires c.lineLen >= 3 && |s| >= c.lineLen && FirstCrlf(s) > 0 && FirstCrlf(s) + 2 >= c.lineLen
    ensures Transact(c, s) == Outcome(1, "", Some(HTTP_SC_REQUEST_ENTITY_TOO_LARGE), false)
  {}

  /** A stream that ends within its first line, or starts with an empty one. */
  lemma BrokenLineCloses(c: Config, s: string)
    requires c.lineLen >= 3 && ((|s| < c.lineLen && FirstCrlf(s) == |s|) || CrlfAt(s, 0))
    ensures Transact(c, s) == Outcome(1, "", None, false)
  {}

  /** A request line that is refused, with the error that `BadRequestIff` and `RequestLineRead` tell. */
  lemma BadLineRefused(c: Config, line: string, rest: string, error: Error)
    requires c.lineLen >= 3 && GoodLine(line, c.lineLen) && ParseRequestLine(line + CRLF, c.uriLen) == Bad(error)
    ensures Transact(c, line + CRLF + rest) == Outcome(1, "", Some(error), false)
  {
    hide ReadLine, GoodLine, ParseRequestLine;
    LineReads(line, rest, c.lineLen);
  }

  function Lines(fields: seq<string>): string {
    if fields == [] then "" else fields[0] + CRLF + Lines(fields[1..])
  }

  /** Behind any good field lines, one that does not fit, or the end of the stream. */
  lemma {:induction false} FieldsRefused(fields: seq<string>, s: string, bufLen: nat, contentLength: int)
    requires bufLen >= 3 && forall i :: 0 <= i < |fields| ==> GoodLine(fields[i], bufLen)
    ensures var h := Fields(Lines(fields) + s, bufLen, contentLength);
      && (|s| >= bufLen && FirstCrlf(s) > 0 && FirstCrlf(s) + 2 >= bufLen ==>
           !h.ended && h.reply == Some(HTTP_SC_REQUEST_ENTITY_TOO_LARGE))
      && (|s| < bufLen && FirstCrlf(s) == |s| ==> !h.ended && h.reply == None)
    decreases |fields|
  {
    hide AfterField, GoodLine, FirstCrlf;
    if fields == [] {
      assert Lines(fields) + s == s;
    } else {
      var more := Lines(fields[1..]) + s;
      assert Lines(fields) + s == fields[0] + CRLF + more;
      LineReads(fields[0], more, bufLen);
      hide ReadLine;
      FieldsRefused(fields[1..], s, bufLen, AfterField(fields[0] + CRLF, contentLength));
    }
  }

  /** So in a header: a field line that does not fit is answered by an error, and the stream's end by none;
      the session is closed in either case. */
  lemma LongFieldRefused(c: Config, start: string, fields: seq<string>, s: string)
    requires GoodMessage(c, Message(start, fields, ""))
    ensures var o := Transact(c, start + CRLF + (Lines(fields) + s));
      && (|s| >= c.lineLen && FirstCrlf(s) > 0 && FirstCrlf(s) + 2 >= c.lineLen ==>
            o == Outcome(1, "", Some(HTTP_SC_REQUEST_ENTITY_TOO_LARGE), false))
      && (|s| < c.lineLen && FirstCrlf(s) == |s| ==> o == Outcome(1, "", None, false))
  {
    hide ReadLine, GoodLine, ParseRequestLine, Fields, FirstCrlf;
    LineReads(start, Lines(fields) + s, c.lineLen);
    FieldsRefused(fields, s, c.lineLen, 0);
  }
}
