/**
Requests as a client writes them, and what a persistent connection makes of a sequence of them.
 */
module HttpFraming {
  import opened Options
  import opened HttpRequest

  const CRLF := "\r\n"

  /** A message: its request line, its field lines and its body. */
  datatype Message = Message(start: string, fields: seq<string>, body: string)

  function EncodeFields(fields: seq<string>): string {
    if fields == [] then CRLF else fields[0] + CRLF + EncodeFields(fields[1..])
  }

  function Encode(m: Message): string {
    m.start + CRLF + EncodeFields(m.fields) + m.body
  }

  /** A line that fits into the line buffer with its CRLF and the terminator. */
  predicate GoodLine(line: string, bufLen: nat) {
    1 <= |line| && |line| + 2 < bufLen && FirstCrlf(line) == |line|
  }

  /** The length that the last of the fields announces, none being 0. */
  function Announced(fields: seq<string>, contentLength: int): int {
    if fields == [] then contentLength
    else Announced(fields[1..], AfterField(fields[0] + CRLF, contentLength))
  }

  predicate GoodMessage(c: Config, m: Message) {
    && c.lineLen >= 3
    && GoodLine(m.start, c.lineLen) && (forall i :: 0 <= i < |m.fields| ==> GoodLine(m.fields[i], c.lineLen))
    && ParseRequestLine(m.start + CRLF, c.uriLen).Good?
  }

  function RequestOf(c: Config, m: Message): Request
    requires GoodMessage(c, m)
  {
    ParseRequestLine(m.start + CRLF, c.uriLen).request.(contentLength := Announced(m.fields, 0))
  }

  // ---------- Reading back ----------

  lemma FirstCrlfIs(s: string, k: nat)
    requires CrlfAt(s, k) && forall j: nat :: j < k ==> !CrlfAt(s, j)
    ensures FirstCrlf(s) == k
  {}

  lemma LineEnds(line: string, rest: string)
    requires FirstCrlf(line) == |line|
    ensures FirstCrlf(line + CRLF + rest) == |line|
  {
    var s := line + CRLF + rest;
    forall j: nat | j < |line| ensures !CrlfAt(s, j) {
      assert !CrlfAt(line, j);
    }
    FirstCrlfIs(s, |line|);
  }

  lemma LineReads(line: string, rest: string, bufLen: nat)
    requires GoodLine(line, bufLen)
    ensures var s := line + CRLF + rest;
      && ReadLine(s, bufLen) == Text(|line| + 2) && s[..|line| + 2] == line + CRLF && s[|line| + 2..] == rest
  {
    LineEnds(line, rest);
  }

  lemma EmptyLineReads(rest: string, bufLen: nat)
    requires bufLen >= 3
    ensures ReadLine(CRLF + rest, bufLen) == EndOfHeader
  {
    FirstCrlfIs(CRLF + rest, 0);
  }

  lemma {:induction false} FieldsRead(fields: seq<string>, rest: string, bufLen: nat, contentLength: int)
    requires bufLen >= 3 && forall i :: 0 <= i < |fields| ==> GoodLine(fields[i], bufLen)
    ensures Fields(EncodeFields(fields) + rest, bufLen, contentLength)
      == Header(true, Announced(fields, contentLength), |EncodeFields(fields)|, None)
    decreases |fields|
  {
    hide ReadLine, AfterField, GoodLine;
    if fields == [] {
      EmptyLineReads(rest, bufLen);
    } else {
      var more := EncodeFields(fields[1..]) + rest;
      var s := fields[0] + CRLF + more;
      assert s == EncodeFields(fields) + rest;
      LineReads(fields[0], more, bufLen);
      FieldsRead(fields[1..], rest, bufLen, AfterField(fields[0] + CRLF, contentLength));
    }
  }

  /** The header of an encoded message is read back whole, whatever follows. */
  lemma HeadReads(c: Config, m: Message, rest: string)
    requires GoodMessage(c, m)
    ensures ReadHead(c, Encode(m) + rest) == Read(RequestOf(c, m), |Encode(m)| - |m.body|)
    ensures (Encode(m) + rest)[|Encode(m)| - |m.body|..] == m.body + rest
  {
    hide ReadLine, AfterField, GoodLine, ParseRequestLine, Fields, Announced;
    var more := EncodeFields(m.fields) + (m.body + rest);
    var s := m.start + CRLF + more;
    assert s == Encode(m) + rest;
    LineReads(m.start, more, c.lineLen);
    FieldsRead(m.fields, m.body + rest, c.lineLen, 0);
  }

  // ---------- The request line ----------

  function NameOf(tag: Tag): string
    requires IsMethod(tag)
  {
    match tag
    case TAG_GET => "GET"
    case TAG_POST => "POST"
    case TAG_PUT => "PUT"
    case TAG_PATCH => "PATCH"
    case TAG_DELETE => "DELETE"
  }

  predicate Without(s: string, c: char) { forall i :: 0 <= i < |s| ==> s[i] != c }

  function Target(uri: string, args: Option<string>): string {
    match args
    case None => uri
    case Some(text) => uri + "?" + text
  }

  lemma IndexIs(s: string, c: char, k: nat)
    requires k <= |s| && (k < |s| ==> s[k] == c) && Without(s[..k], c)
    ensures Index(s, c) == k
  {
    assert forall j :: 0 <= j < k ==> s[j] == s[..k][j];
  }

  lemma NameIsRead(tag: Tag, rest: string)
    requires IsMethod(tag)
    ensures HttpExtractTag(NameOf(tag) + rest) == tag
  {
    var line := NameOf(tag) + rest;
    assert line[..|NameOf(tag)|] == NameOf(tag);
    assert line[0] == NameOf(tag)[0] && line[1] == NameOf(tag)[1];
  }

  /** The method ends at the first blank. */
  lemma MethodEnds(name: string, blanks: nat, rest: string)
    requires Without(name, ' ') && blanks > 0
    ensures Index(name + Blanks(blanks) + rest, ' ') == |name|
  {
    var line := name + Blanks(blanks) + rest;
    assert line[..|name|] == name && line[|name|] == Blanks(blanks)[0];
    IndexIs(line, ' ', |name|);
  }

  function Blanks(n: nat): (s: string)
    ensures |s| == n && forall i :: 0 <= i < n ==> s[i] == ' '
  {
    seq(n, _ => ' ')
  }

  lemma {:induction false} BlanksSkipped(n: nat, rest: string)
    requires rest == "" || rest[0] != ' '
    ensures SkipSpaces(Blanks(n) + rest) == rest
  {
    if n == 0 {
      assert Blanks(n) + rest == rest;
    } else {
      assert (Blanks(n) + rest)[1..] == Blanks(n - 1) + rest;
      BlanksSkipped(n - 1, rest);
    }
  }

  lemma TargetIsRead(blanks: nat, target: string, rest: string)
    requires target != "" && Without(target, ' ')
    ensures SkipSpaces(Blanks(blanks) + (target + " " + rest)) == target + " " + rest
    ensures Index(target + " " + rest, ' ') == |target| && (target + " " + rest)[..|target|] == target
  {
    var behind := target + " " + rest;
    assert behind[..|target|] == target && behind[0] == target[0];
    BlanksSkipped(blanks, behind);
    IndexIs(behind, ' ', |target|);
  }

  lemma ArgsAreRead(uri: string, args: Option<string>)
    requires Without(uri, '?')
    ensures var target := Target(uri, args); var mark := Index(target, '?');
      && target[..mark] == uri && (mark < |target| <==> args.Some?)
      && (args.Some? ==> target[mark + 1..] == args.value)
  {
    var target := Target(uri, args);
    assert target[..|uri|] == uri;
    IndexIs(target, '?', |uri|);
  }

  /** A request line gives the method that it starts with, whatever is written against that, and behind any
      number of blanks the path and the arguments behind the question mark; or the error if the target does
      not fit. */
  lemma RequestLineRead(
      tag: Tag, more: string, blanks: nat, uri: string, args: Option<string>, version: string, uriLen: nat)
    requires IsMethod(tag) && Target(uri, args) != "" && Without(uri, '?') && blanks > 0
    requires Without(more, ' ') && Without(more, '\0')
    requires Without(Target(uri, args), ' ') && Without(Target(uri, args), '\0') && Without(version, '\0')
    ensures ParseRequestLine(NameOf(tag) + more + Blanks(blanks) + Target(uri, args) + " " + version + CRLF, uriLen)
      == if |Target(uri, args)| < uriLen then Good(Request(tag, uri, args, 0))
         else Bad(HTTP_SC_REQUEST_ENTITY_TOO_LARGE)
  {
    hide HttpExtractTag, Index, SkipSpaces, CString, Target, Blanks;
    var name, target := NameOf(tag) + more, Target(uri, args);
    var behind := target + " " + (version + CRLF);
    var line := name + Blanks(blanks) + target + " " + version + CRLF;
    assert line == name + Blanks(blanks) + behind;
    NameHasNoNul(tag);
    NoNul(line);
    assert line == NameOf(tag) + (more + Blanks(blanks) + behind);
    NameIsRead(tag, more + Blanks(blanks) + behind);
    MethodEnds(name, blanks, behind);
    assert line[|name|..] == Blanks(blanks) + behind;
    TargetIsRead(blanks, target, version + CRLF);
    ArgsAreRead(uri, args);
  }

  /** Three places in this order: a blank, something else, a blank. */
  ghost predicate TwoGaps(line: string) {
    exists i, j, k :: 0 <= i < j < k < |line| && line[i] == ' ' && line[j] != ' ' && line[k] == ' '
  }

  /** The rest behind the blanks in front. */
  lemma {:induction false} SkipsTo(s: string) returns (k: nat)
    ensures k <= |s| && SkipSpaces(s) == s[k..] && forall i :: 0 <= i < k ==> s[i] == ' '
  {
    k := 0;
    if s != "" && s[0] == ' ' {
      var rest := SkipsTo(s[1..]);
      k := rest + 1;
      forall i | 0 <= i < k ensures s[i] == ' ' {
        if i > 0 { assert s[i] == s[1..][i - 1]; }
      }
    }
  }

  /** A request line is refused as bad exactly if it does not start with one of the methods, or has no
      target between blanks. */
  lemma BadRequestIff(line: string, uriLen: nat)
    requires Without(line, '\0')
    ensures ParseRequestLine(line + CRLF, uriLen) == Bad(HTTP_SC_BAD_REQUEST) <==>
      !(exists tag :: IsMethod(tag) && StartsWith(line, NameOf(tag))) || !TwoGaps(line)
  {
    hide HttpExtractTag, SkipSpaces, CString, Index, TwoGaps, StartsWith;
    var bytes := line + CRLF;
    NoNul(bytes);
    MethodIff(line);
    var at := Index(bytes, ' ');
    if at < |bytes| {
      var k := SkipsTo(bytes[at..]);
      GapsIff(line, at, k);
    } else {
      NoBlankNoGaps(line);
    }
  }

  lemma NoBlankNoGaps(line: string)
    ensures Index(line + CRLF, ' ') == |line + CRLF| ==> !TwoGaps(line)
  {
    assert forall i :: 0 <= i < |line| ==> (line + CRLF)[i] == line[i];
  }

  lemma MethodIff(line: string)
    ensures IsMethod(HttpExtractTag(line + CRLF)) <==> exists tag :: IsMethod(tag) && StartsWith(line, NameOf(tag))
  {
    hide HttpExtractTag, StartsWith, Without;
    var tag := HttpExtractTag(line + CRLF);
    if IsMethod(tag) {
      TagIsStart(line + CRLF);
      NameHasNoNul(tag);
      StartsWithin(line, NameOf(tag));
    }
    if tag' :| IsMethod(tag') && StartsWith(line, NameOf(tag')) {
      StartIsTag(line, tag');
    }
  }

  lemma StartIsTag(line: string, tag: Tag)
    requires IsMethod(tag) && StartsWith(line, NameOf(tag))
    ensures HttpExtractTag(line + CRLF) == tag
  {
    hide HttpExtractTag;
    assert line + CRLF == NameOf(tag) + (line[|NameOf(tag)|..] + CRLF);
    NameIsRead(tag, line[|NameOf(tag)|..] + CRLF);
  }

  lemma TagIsStart(line: string)
    ensures var tag := HttpExtractTag(line); IsMethod(tag) ==> StartsWith(line, NameOf(tag))
  {}

  /** A text without a CR that a line and its CRLF start with is one that the line starts with. */
  lemma StartsWithin(line: string, p: string)
    requires StartsWith(line + CRLF, p) && Without(p, '\r')
    ensures StartsWith(line, p)
  {
    assert (line + CRLF)[|line|] == '\r';
    assert forall i :: 0 <= i < |p| ==> p[i] == (line + CRLF)[i];
    assert |p| <= |line|;
    assert (line + CRLF)[..|p|] == line[..|p|];
  }

  /** With the first blank at `at` and `k` of them there, another blank follows behind the target exactly if
      there are two gaps. */
  lemma GapsIff(line: string, at: nat, k: nat)
    requires var bytes := line + CRLF;
      && at == Index(bytes, ' ') < |bytes| && at + k <= |bytes| && SkipSpaces(bytes[at..]) == bytes[at..][k..]
      && forall i :: 0 <= i < k ==> bytes[at..][i] == ' '
    ensures var beg := SkipSpaces((line + CRLF)[at..]); Index(beg, ' ') < |beg| <==> TwoGaps(line)
  {
    hide SkipSpaces, Index, TwoGaps;
    var bytes := line + CRLF;
    var beg := SkipSpaces(bytes[at..]);
    assert bytes[at] == ' ' && beg == bytes[at + k..];
    if Index(beg, ' ') < |beg| { GapFound(line, at, k, Index(beg, ' ')); }
    if TwoGaps(line) {
      assert forall q :: at <= q < at + k ==> bytes[q] == bytes[at..][q - at];
      BlankBehind(line, at, k);
    }
  }

  /** A blank behind the target. */
  lemma GapFound(line: string, at: nat, k: nat, end: nat)
    requires var bytes := line + CRLF;
      && at + k + end < |bytes| && bytes[at] == ' ' && bytes[at + k + end] == ' ' && bytes[at + k] != ' '
    ensures TwoGaps(line)
  {
    assert k > 0 && end > 0;
    assert line[at] == ' ' && line[at + k] != ' ' && line[at + k + end] == ' ';
  }

  lemma BlankBehind(line: string, at: nat, k: nat)
    requires TwoGaps(line) && at == Index(line + CRLF, ' ') && at + k <= |line + CRLF|
    requires forall q :: at <= q < at + k ==> (line + CRLF)[q] == ' '
    ensures var beg := (line + CRLF)[at + k..]; Index(beg, ' ') < |beg|
  {
    var bytes := line + CRLF;
    var i, j, l :| 0 <= i < j < l < |line| && line[i] == ' ' && line[j] != ' ' && line[l] == ' ';
    assert bytes[i] == ' ' && bytes[j] != ' ' && bytes[l] == ' ';
    assert bytes[at + k..][l - at - k] == ' ';
  }

  lemma NameHasNoNul(tag: Tag)
    requires IsMethod(tag)
    ensures Without(NameOf(tag), '\0') && Without(NameOf(tag), '\r') && Without(NameOf(tag), ' ')
  {}

  // ---------- One message ----------

  predicate Declined(c: Config, m: Message)
    requires GoodMessage(c, m)
  {
    Process(c.handlers, RequestOf(c, m)).Declines?
  }

  /** A declined message leaves the connection on the boundary after it, and the session kept,
      exactly if the last announcement that the server recognises is the length of the body. */
  lemma AlignedIff(c: Config, m: Message, rest: string)
    requires GoodMessage(c, m) && Declined(c, m)
    ensures Transact(c, Encode(m) + rest).status == 0 && Transact(c, Encode(m) + rest).rest == rest
      <==> Announced(m.fields, 0) == |m.body|
  {
    hide ReadHead, Announced, GoodMessage;
    HeadReads(c, m, rest);
    var length := Announced(m.fields, 0);
    var s := m.body + rest;
    assert s[|m.body|..] == rest;
    if 0 <= length <= |s| && length != |m.body| {
      assert |s[length..]| != |rest|;
    }
  }

  // ---------- A persistent connection ----------

  function EncodeAll(ms: seq<Message>): string {
    if ms == [] then "" else Encode(ms[0]) + EncodeAll(ms[1..])
  }

  /** The stream after `n` calls, as long as the session is kept. */
  function Serve(c: Config, s: string, n: nat): Option<string>
    requires c.lineLen >= 3
    decreases n
  {
    if n == 0 then Some(s)
    else
      var o := Transact(c, s);
      if o.status == 0 then Serve(c, o.rest, n - 1) else None
  }

  /** Messages sent one after the other are served one by one, each call starting on the next
      message's first byte. */
  lemma {:induction false} PipelineStaysAligned(c: Config, ms: seq<Message>, rest: string)
    requires c.lineLen >= 3
    requires forall i :: 0 <= i < |ms| ==>
      GoodMessage(c, ms[i]) && Declined(c, ms[i]) && Announced(ms[i].fields, 0) == |ms[i].body|
    ensures Serve(c, EncodeAll(ms) + rest, |ms|) == Some(rest)
    decreases |ms|
  {
    hide Transact, GoodMessage, Declined, Encode, Announced;
    if ms == [] {
      assert EncodeAll(ms) + rest == rest;
    } else {
      var more := EncodeAll(ms[1..]) + rest;
      assert EncodeAll(ms) + rest == Encode(ms[0]) + more;
      AlignedIff(c, ms[0], more);
      PipelineStaysAligned(c, ms[1..], rest);
    }
  }

  // ---------- Announcements the server recognises ----------

  function Digit(n: nat): char
    requires n < 10
  {
    '0' + n as char
  }

  function Decimal(n: nat): string {
    if n < 10 then [Digit(n)] else Decimal(n / 10) + [Digit(n % 10)]
  }

  /** Reading the digits of a number, and then what follows. */
  lemma {:induction false} DigitsOfDecimal(n: nat, rest: string)
    ensures Decimal(n) != "" && IsDigit(Decimal(n)[0])
    ensures Digits(Decimal(n) + rest, 0) == Digits(rest, n)
  {
    if n < 10 {
      assert (Decimal(n) + rest)[1..] == rest;
    } else {
      var last := [Digit(n % 10)];
      DigitsOfDecimal(n / 10, last + rest);
      assert Decimal(n) + rest == Decimal(n / 10) + (last + rest);
      assert (last + rest)[1..] == rest;
    }
  }

  lemma {:induction false} DecimalIsDigits(n: nat)
    ensures forall i :: 0 <= i < |Decimal(n)| ==> IsDigit(Decimal(n)[i])
  {
    if n >= 10 { DecimalIsDigits(n / 10); }
  }

  lemma NoNul(s: string)
    requires forall i :: 0 <= i < |s| ==> s[i] != '\0'
    ensures CString(s) == s
  {}

  /** The field that announces a body is recognised, whatever came before. */
  lemma FieldRecognised(n: nat, contentLength: int)
    ensures AfterField(ContentLength + Decimal(n) + CRLF, contentLength) == n
  {
    hide Decimal, AfterField;
    DecimalIsDigits(n);
    DigitsOfDecimal(n, CRLF);
    ValueIsRead(Decimal(n) + CRLF, contentLength);
    assert ContentLength + Decimal(n) + CRLF == ContentLength + (Decimal(n) + CRLF);
  }

  /** Every line that does not start with the expected name leaves the length as it is. */
  lemma OtherFieldIgnored(line: string, contentLength: int)
    requires !StartsWith(line, ContentLength)
    ensures AfterField(line + CRLF, contentLength) == contentLength
  {
    var bytes := line + CRLF;
    var text := CString(bytes);
    if StartsWith(text, ContentLength) {
      assert bytes[..16] == text[..16];
      StartsWithin(line, ContentLength);
      assert false;
    }
  }

  predicate IsZero(c: char) { c == '0' }

  /** A blank, a tab, or one of the four that break lines. */
  predicate IsBlank(c: char) { c as int in {9, 10, 11, 12, 13, 32} }

  lemma BlankIsSpace(c: char)
    ensures IsBlank(c) <==> IsSpace(c)
  {}

  predicate All(s: string, p: char -> bool) { forall i :: 0 <= i < |s| ==> p(s[i]) }

  lemma {:induction false} SpacesSkipped(blanks: string, rest: string)
    requires All(blanks, IsBlank)
    ensures Atoi(blanks + rest) == Atoi(rest)
    decreases |blanks|
  {
    if blanks == "" {
      assert blanks + rest == rest;
    } else {
      assert (blanks + rest)[1..] == blanks[1..] + rest;
      assert IsBlank(blanks[0]);
      BlankIsSpace(blanks[0]);
      SpacesSkipped(blanks[1..], rest);
    }
  }

  lemma {:induction false} ZerosSkipped(zeros: string, rest: string)
    requires All(zeros, IsZero)
    ensures Digits(zeros + rest, 0) == Digits(rest, 0)
    decreases |zeros|
  {
    if zeros == "" {
      assert zeros + rest == rest;
    } else {
      assert (zeros + rest)[1..] == zeros[1..] + rest;
      assert IsZero(zeros[0]);
      ZerosSkipped(zeros[1..], rest);
    }
  }

  /** The value of an announcement: a number behind blanks, a sign and zeros counts with its sign, up to the
      first character that is no digit; with no digit there the length is 0. */
  lemma AnnouncedValue(blanks: string, sign: string, zeros: string, n: nat, rest: string, contentLength: int)
    requires All(blanks, IsBlank) && (sign == "" || sign == "+" || sign == "-") && All(zeros, IsZero)
    requires Without(rest, '\0') && (rest == "" || !IsDigit(rest[0]))
    ensures AfterField(ContentLength + (blanks + (sign + (zeros + (Decimal(n) + (rest + CRLF))))), contentLength)
      == if sign == "-" then 0 - n else n
    ensures sign != "" || rest == "" || !(IsBlank(rest[0]) || rest[0] == '+' || rest[0] == '-') ==>
      AfterField(ContentLength + (blanks + (sign + (rest + CRLF))), contentLength) == 0
  {
    hide Decimal, Atoi, Digits, AfterField, All, Without;
    var tail := rest + CRLF;
    var digits := zeros + (Decimal(n) + tail);
    NoNulIn(blanks, sign, zeros, n, rest);
    NumberIsRead(sign, zeros, n, rest);
    SpacesSkipped(blanks, sign + digits);
    ValueIsRead(blanks + (sign + digits), contentLength);
    SpacesSkipped(blanks, sign + tail);
    ValueIsRead(blanks + (sign + tail), contentLength);
    if sign != "" || rest == "" || !(IsBlank(rest[0]) || rest[0] == '+' || rest[0] == '-') {
      NoSign(sign, rest);
    }
  }

  lemma NoNulIn(blanks: string, sign: string, zeros: string, n: nat, rest: string)
    requires All(blanks, IsBlank) && (sign == "" || sign == "+" || sign == "-") && All(zeros, IsZero)
    requires Without(rest, '\0')
    ensures Without(blanks + (sign + (rest + CRLF)), '\0')
    ensures Without(blanks + (sign + (zeros + (Decimal(n) + (rest + CRLF)))), '\0')
  {
    DecimalIsDigits(n);
    hide Decimal;
    Joined(rest, CRLF);
    Joined(sign, rest + CRLF);
    Joined(blanks, sign + (rest + CRLF));
    Joined(Decimal(n), rest + CRLF);
    Joined(zeros, Decimal(n) + (rest + CRLF));
    Joined(sign, zeros + (Decimal(n) + (rest + CRLF)));
    Joined(blanks, sign + (zeros + (Decimal(n) + (rest + CRLF))));
  }

  lemma Joined(a: string, b: string)
    ensures Without(a, '\0') && Without(b, '\0') ==> Without(a + b, '\0')
  {}

  lemma NumberIsRead(sign: string, zeros: string, n: nat, rest: string)
    requires (sign == "" || sign == "+" || sign == "-") && All(zeros, IsZero)
    requires rest == "" || !IsDigit(rest[0])
    ensures Atoi(sign + (zeros + (Decimal(n) + (rest + CRLF)))) == if sign == "-" then 0 - n else n
  {
    hide Decimal, Atoi, Digits;
    var tail := rest + CRLF;
    ZerosSkipped(zeros, Decimal(n) + tail);
    DigitsOfDecimal(n, tail);
    NoMoreDigits(rest, n);
    assert zeros != "" ==> IsDigit(zeros[0]);
    SignIsRead(sign, zeros + (Decimal(n) + tail));
  }

  lemma NoMoreDigits(rest: string, n: nat)
    requires rest == "" || !IsDigit(rest[0])
    ensures Digits(rest + CRLF, n) == n
  {}

  lemma SignIsRead(sign: string, digits: string)
    requires (sign == "" || sign == "+" || sign == "-") && digits != "" && IsDigit(digits[0])
    ensures Atoi(sign + digits) == if sign == "-" then 0 - Digits(digits, 0) else Digits(digits, 0)
  {
    if sign == "" { assert sign + digits == digits; } else { assert (sign + digits)[1..] == digits; }
  }

  lemma NoSign(sign: string, rest: string)
    requires (sign == "" || sign == "+" || sign == "-") && (rest == "" || !IsDigit(rest[0]))
    requires sign != "" || rest == "" || !(IsBlank(rest[0]) || rest[0] == '+' || rest[0] == '-')
    ensures Atoi(sign + (rest + CRLF)) == 0
  {
    var tail := rest + CRLF;
    if sign != "" {
      assert (sign + tail)[1..] == tail;
    } else {
      assert sign + tail == tail;
      if rest == "" {
        assert tail[1..] == "\n" && tail[1..][1..] == "";
        assert Atoi(tail[1..]) == Atoi("") == 0;
      }
    }
  }

  lemma ValueIsRead(text: string, contentLength: int)
    requires Without(text, '\0')
    ensures AfterField(ContentLength + text, contentLength) == Atoi(text)
  {
    hide HttpExtractTag, Atoi, CString;
    var bytes := ContentLength + text;
    NoNul(bytes);
    LengthTag(text);
    assert bytes[16..] == text;
  }

  lemma LengthTag(text: string)
    ensures HttpExtractTag(ContentLength + text) == TAG_CLEN
  {
    var line := ContentLength + text;
    assert line[..16] == ContentLength && line[0] == 'C';
  }

  /** Field names are compared case by case, unlike section 3.2 of RFC 7230 has it: an announcement in
      lower case changes nothing. */
  lemma LowerCaseIgnored(value: string, contentLength: int)
    ensures AfterField("content-length: " + value + CRLF, contentLength) == contentLength
  {
    var line := CString("content-length: " + value + CRLF);
    assert line != "" ==> line[0] == 'c';
  }

  /** The last announcement counts. */
  lemma {:induction false} AnnouncedLast(fields: seq<string>, last: string, contentLength: int)
    ensures Announced(fields + [last], contentLength) == AfterField(last + CRLF, Announced(fields, contentLength))
    decreases |fields|
  {
    hide AfterField;
    if fields != [] {
      assert (fields + [last])[1..] == fields[1..] + [last];
      AnnouncedLast(fields[1..], last, AfterField(fields[0] + CRLF, contentLength));
    } else {
      assert fields + [last] == [last];
    }
  }

  /** A message whose last field announces the length of its body: spelled as the server expects,
      the connection stays on the boundary; in lower case, with no other announcement, the next call
      starts on the body. */
  lemma SpellingDecides(c: Config, m: Message, fields: seq<string>, rest: string)
    requires GoodMessage(c, m) && Declined(c, m)
    ensures m.fields == fields + [ContentLength + Decimal(|m.body|)] ==>
      Transact(c, Encode(m) + rest).status == 0 && Transact(c, Encode(m) + rest).rest == rest
    ensures m.fields == fields + ["content-length: " + Decimal(|m.body|)] && Announced(fields, 0) == 0 ==>
      Transact(c, Encode(m) + rest).status == 0 && Transact(c, Encode(m) + rest).rest == m.body + rest
  {
    hide ReadHead, Decimal, AfterField, GoodMessage, Encode, Announced;
    AlignedIff(c, m, rest);
    var n := |m.body|;
    if m.fields == fields + [ContentLength + Decimal(n)] {
      AnnouncedLast(fields, ContentLength + Decimal(n), 0);
      FieldRecognised(n, Announced(fields, 0));
    }
    if m.fields == fields + ["content-length: " + Decimal(n)] && Announced(fields, 0) == 0 {
      AnnouncedLast(fields, "content-length: " + Decimal(n), 0);
      LowerCaseIgnored(Decimal(n), 0);
      HeadReads(c, m, rest);
    }
  }
}
