/** HTTP answers: the HttpResponse constructor of http_response.cpp, and what a whole answer announces. */
module HttpResponses {
  import opened Text
  import opened Numbers
  import opened RequestBases
  import opened ChunkedCoding
  import Headers
  import RequestComposer
  import RequestFraming

  type Header = Headers.Header

  const BLANK := "\r\n\r\n"
  const OK_STATUS := 200
  const TRANSFER_ENCODING := "transfer-encoding"

  /** The HttpResponse constructor: status and headers, without either for another protocol version. Thrown
      also stands for the reads past the end that the source makes of a shorter head. */
  function ParsedHead(head: string): Result<Response> {
    if |head| < 8 then Thrown
    else if head[..8] != "HTTP/1.1" then Ok(HttpResponse(0, [], ""))
    else if |head| < 12 then Thrown
    else
      match (Stoll(head[9..12], 10), Headers.HeadersOf(head))
      case (Ok(status), Ok(hs)) => Ok(HttpResponse(status, hs, ""))
      case _ => Thrown
  }

  /** A body framed by Content-Length, and one in chunks. */
  function ContentLength(r: Response): Option<string>
    requires r.HttpResponse?
  {
    Headers.Lookup(r.headers, RequestComposer.CONTENT_LENGTH)
  }

  function TransferEncoding(r: Response): Option<string>
    requires r.HttpResponse?
  {
    Headers.Lookup(r.headers, TRANSFER_ENCODING)
  }

  /** `head` is what `all` has up to the first blank line and with it. */
  ghost predicate HeadComplete(all: string, head: string) {
    head <= all && forall i: nat :: FirstAt(all, BLANK, i) ==> head == all[..i + 4]
  }

  ghost predicate LengthBodyRead(text: string, rest: string, before: string, delivered: string) {
    var length := Stoll(text, 10);
    length.Ok? && Counted(length.value) <= |rest| && delivered == before + rest[..Counted(length.value)]
  }

  /** The body that a response announces, from the bytes behind its head. */
  ghost predicate BodyRead(r: Response, rest: string, delivered: string, async: bool, calm: bool,
                           cs: seq<Chunk>, last: Chunk, tail: string)
  {
    r.HttpResponse?
    && if async && r.status != OK_STATUS then delivered == ""
    else if ContentLength(r).Some? then LengthBodyRead(ContentLength(r).value, rest, "", delivered)
    else
      TransferEncoding(r).Some?
      && if Contains(TransferEncoding(r).value, "chunked") then
        (calm && OnWire(rest, cs, last, tail) ==> delivered == Payload(cs))
      else delivered == ""
  }

  ghost predicate OnWire(stream: string, cs: seq<Chunk>, last: Chunk, tail: string) {
    ValidChunks(cs) && ValidLast(last) && stream == Wire(cs, last, tail)
  }

  // Answers as a host sends them.

  /** A status of three digits, a reason with the space in front of it, headers, and what is behind the blank line. */
  datatype Answer = Answer(status: string, reason: string, headers: seq<Header>, rest: string)

  predicate WellFormed(a: Answer) {
    && |a.status| == 3 && IsNumeral(a.status, 10)
    && ':' !in a.reason && '\r' !in a.reason && '\n' !in a.reason && Headers.AllPrintable(a.headers)
  }

  function StatusLine(a: Answer): string {
    "HTTP/1.1 " + a.status + a.reason
  }

  function AnswerHead(a: Answer): string {
    StatusLine(a) + CRLF + Headers.Print(a.headers) + CRLF
  }

  /** The headers that are read: the status line is one without a value, and the blank line an empty one. */
  function ReadHeaders(a: Answer): seq<Header> {
    [Headers.Header(StatusLine(a), "")] + a.headers + [Headers.Header("", "")]
  }

  /** What a run that ended without an error made of an answer: the response, and the body that was delivered. */
  ghost predicate Delivers(a: Answer, r: Response, delivered: string, async: bool, calm: bool,
                           cs: seq<Chunk>, last: Chunk, tail: string)
  {
    && r.HttpResponse? && r.status == Value(a.status, 10) && r.headers == ReadHeaders(a)
    && if async && a.status != "200" then delivered == ""
    else
      var i := Headers.Position(a.headers, {"content-length", "Content-Length"});
      var j := Headers.Position(a.headers, {"transfer-encoding", "Transfer-Encoding"});
      if i < |a.headers| then
        var length := a.headers[i].value;
        IsNumeral(length, 10) ==> Value(length, 10) <= |a.rest| && delivered == a.rest[..Value(length, 10)]
      else
        j < |a.headers|
        && if Contains(a.headers[j].value, "chunked") then
          (calm && OnWire(a.rest, cs, last, tail) ==> delivered == Payload(cs))
        else delivered == ""
  }

  lemma StatusLinePlain(a: Answer)
    requires WellFormed(a)
    ensures var line := StatusLine(a);
      ':' !in line && '\r' !in line && '\n' !in line && line[..8] == "HTTP/1.1" && line[9..12] == a.status
      && |line| >= 12
  {
    forall i | 0 <= i < 3 ensures '0' <= a.status[i] <= '9' {
      assert DigitValue(a.status[i]) < 10;
    }
  }

  /** The head is read as it was meant. */
  lemma HeadIsParsed(a: Answer)
    requires WellFormed(a)
    ensures ParsedHead(AnswerHead(a)) == Ok(HttpResponse(Value(a.status, 10), ReadHeaders(a), ""))
  {
    var line, head := StatusLine(a), AnswerHead(a);
    var block := Headers.Print(a.headers) + CRLF;
    StatusLinePlain(a);
    assert head == line + CRLF + block;
    assert head[..8] == line[..8] && head[9..12] == line[9..12];
    StatusIsRead(a.status);
    StatusLineIsHeader(line, block);
    Headers.BlankLineIsEmptyHeader(a.headers);
    assert Headers.HeadersOf(head) == Ok(ReadHeaders(a)) by {
      Associative([Headers.Header(line, "")], a.headers, [Headers.Header("", "")]);
    }
  }

  lemma StatusLineIsHeader(line: string, block: string)
    requires ':' !in line && '\r' !in line && '\n' !in line && line != ""
    ensures Headers.HeadersOf(line + CRLF + block)
      == Headers.Prepend([Headers.Header(line, "")], Headers.HeadersOf(block))
  {
    Headers.PrintedLineEnd(line, block);
    FindUnique(line, {':'}, |line|);
    assert line[..|line|] == line;
    assert Headers.HeaderOf(line) == Headers.Header(line, "");
  }

  lemma StatusIsRead(status: string)
    requires |status| == 3 && IsNumeral(status, 10)
    ensures Stoll(status, 10) == Ok(Value(status, 10))
    ensures Value(status, 10) == OK_STATUS <==> status == "200"
  {
    StollOfNumeral(status, 10, "");
    assert status + "" == status;
    var a, b, c := DigitValue(status[0]), DigitValue(status[1]), DigitValue(status[2]);
    assert status[..2][..1] == [status[0]] && status[..2][1] == status[1] && [status[0]][..0] == "";
    assert Value(status[..2], 10) == Value(status[..2][..1], 10) * 10 + b;
    assert Value(status[..2][..1], 10) == Value("", 10) * 10 + a;
    assert Value(status, 10) == 100 * a + 10 * b + c;
    assert a < 10 && b < 10 && c < 10;
    if 100 * a + 10 * b + c == 200 {
      assert a == 2 && b == 0 && c == 0;
      assert status == [status[0], status[1], status[2]];
    }
  }

  /** The first blank line of an answer is the one behind its headers. */
  lemma HeadIsFound(a: Answer, head: string)
    requires WellFormed(a) && HeadComplete(AnswerHead(a) + a.rest, head)
    ensures head == AnswerHead(a) && (AnswerHead(a) + a.rest)[|head|..] == a.rest
  {
    StatusLinePlain(a);
    RequestFraming.BlankLineFirst(StatusLine(a), a.headers, a.rest);
    var i := |StatusLine(a)| + |Headers.Print(a.headers)|;
    assert StatusLine(a) + CRLF + Headers.Print(a.headers) + CRLF + a.rest == AnswerHead(a) + a.rest;
    assert FirstAt(AnswerHead(a) + a.rest, BLANK, i) && i + 4 == |AnswerHead(a)|;
  }

  /** Neither the status line nor the blank line is found under a name that is looked up. */
  lemma FoundAmongHeaders(a: Answer, name: string)
    requires name != "" && name[0] != 'H' && Headers.Upper(name[0]) != 'H'
    ensures Headers.Lookup(ReadHeaders(a), name) == Headers.Lookup(a.headers, name)
  {
    var line, blank := Headers.Header(StatusLine(a), ""), Headers.Header("", "");
    assert StatusLine(a)[0] == 'H';
    assert ReadHeaders(a)[1..] == a.headers + [blank];
    RequestFraming.LookupAppend(a.headers, [blank], name);
    assert Headers.Lookup([blank], name) == None;
  }

  /** What the two headers that frame a body say. */
  lemma FramingHeaders(a: Answer, r: Response)
    requires r.HttpResponse? && r.headers == ReadHeaders(a)
    ensures var i := Headers.Position(a.headers, {"content-length", "Content-Length"});
      ContentLength(r) == (if i < |a.headers| then Some(a.headers[i].value) else None)
      && (i < |a.headers| && IsNumeral(a.headers[i].value, 10) ==>
            var n := Value(a.headers[i].value, 10);
            Stoll(a.headers[i].value, 10) == if n <= INT64_MAX then Ok(n) else Thrown)
    ensures var j := Headers.Position(a.headers, {"transfer-encoding", "Transfer-Encoding"});
      TransferEncoding(r) == if j < |a.headers| then Some(a.headers[j].value) else None
  {
    Headers.Spellings();
    FoundAmongHeaders(a, "content-length");
    FoundAmongHeaders(a, "transfer-encoding");
    Headers.LookupFirst(a.headers, "content-length");
    Headers.LookupFirst(a.headers, "transfer-encoding");
    var i := Headers.Position(a.headers, {"content-length", "Content-Length"});
    if i < |a.headers| && IsNumeral(a.headers[i].value, 10) {
      StollOfNumeral(a.headers[i].value, 10, "");
      assert a.headers[i].value + "" == a.headers[i].value;
    }
  }

  /** So whenever the body that the parsed head announces has been delivered, it is the one that the host sent. */
  lemma AnswerIsDelivered(a: Answer, head: string, r: Response, delivered: string, async: bool, calm: bool,
                          cs: seq<Chunk>, last: Chunk, tail: string)
    requires WellFormed(a) && HeadComplete(AnswerHead(a) + a.rest, head)
    requires ParsedHead(head).Ok? && SameHead(r, ParsedHead(head).value)
    requires BodyRead(ParsedHead(head).value, (AnswerHead(a) + a.rest)[|head|..], delivered, async, calm,
               cs, last, tail)
    ensures Delivers(a, r, delivered, async, calm, cs, last, tail)
  {
    HeadIsFound(a, head);
    HeadIsParsed(a);
    StatusIsRead(a.status);
    FramingHeaders(a, ParsedHead(head).value);
    hide ParsedHead, AnswerHead, HeadComplete, WellFormed, ReadHeaders, OnWire, ContentLength, TransferEncoding;
    hide Headers.Position;
    assert "" + a.rest == a.rest;
  }

  /** What a finished run has made of what a host sends: the head up to the first blank line, the response that it
      stands for, and the body that it announces. So for every answer that the host may have sent, the body in it was
      delivered; and only a coroutine can finish behind another protocol version. */
  ghost predicate Answered(sent: string, head: string, r: Response, delivered: string, async: bool, calm: bool,
                           cs: seq<Chunk>, last: Chunk, tail: string)
  {
    && HeadComplete(sent, head) && ParsedHead(head).Ok? && SameHead(r, ParsedHead(head).value)
    && BodyRead(ParsedHead(head).value, sent[|head|..], delivered, async, calm, cs, last, tail)
    && (forall a :: WellFormed(a) && sent == AnswerHead(a) + a.rest ==>
          Delivers(a, r, delivered, async, calm, cs, last, tail))
    && (!async ==> "HTTP/1.1" <= sent)
  }

  lemma EveryAnswerIsDelivered(sent: string, head: string, r: Response, delivered: string, async: bool, calm: bool,
                               cs: seq<Chunk>, last: Chunk, tail: string)
    requires HeadComplete(sent, head) && ParsedHead(head).Ok? && SameHead(r, ParsedHead(head).value)
    requires BodyRead(ParsedHead(head).value, sent[|head|..], delivered, async, calm, cs, last, tail)
    ensures Answered(sent, head, r, delivered, async, calm, cs, last, tail)
  {
    forall a | WellFormed(a) && sent == AnswerHead(a) + a.rest
      ensures Delivers(a, r, delivered, async, calm, cs, last, tail)
    {
      AnswerIsDelivered(a, head, r, delivered, async, calm, cs, last, tail);
    }
    if !async {
      assert head[..8] == "HTTP/1.1" && head[..8] == sent[..8];
    }
  }
}
