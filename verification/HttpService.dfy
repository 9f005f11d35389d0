// HttpService (005_http/http_service.cpp, http_service.hpp), as written.
//
// `Service` is the state of one service object as a value and `Complete` what the handler of the pending
// operation does to it; the class below has the C++ fields, and each of its methods is proved to do just
// that. The file system and the sockets are inputs.
module HttpService {
  import opened Asio
  import opened Errors
  import opened Streams
  import opened Wrappers

  const REQUEST_LIMIT: nat := 4096

  // http_status_table; the text for 413 is the one in the source.
  const STATUS_TABLE: map<nat, string> := map[
    200 := "200 OK",
    404 := "404 Not Found",
    413 := "431 Request Entity Too Large",
    500 := "500 Server Error",
    501 := "501 Not Implemented",
    505 := "505 HTTP Version Not Supported"
  ]

  datatype Op = ReadLine | ReadHeaders | WriteResponse

  // What the file system says about the requested path.
  datatype File = File(present: bool, opens: bool, bytes: string)

  datatype Service = Service(
    request: string, requestHeaders: map<string, string>, statusCode: nat, resource: string,
    resourceBuffer: string, resourceSize: nat, responseHeaders: string, statusLine: string,
    // history: the operation in flight, the responses handed to async_write, the runs of `delete this`
    pending: Option<Op>, responses: seq<string>, deletes: nat)

  // A service after StartHandling.
  const STARTED := Service("", map[], 200, "", "", 0, "", "", Some(ReadLine), [], 0)

  // ---- The handlers ----

  function Delete(s: Service): Service {
    s.(deletes := s.deletes + 1)
  }

  function Send(s: Service): Service
    requires s.statusCode in STATUS_TABLE && s.resourceSize <= |s.resourceBuffer|
  {
    var statusLine := "HTTP/1.1 " + STATUS_TABLE[s.statusCode] + "\r\n";
    var headers := s.responseHeaders + "\r\n";
    var body := if s.resourceSize > 0 then s.resourceBuffer[..s.resourceSize] else "";
    s.(statusLine := statusLine, responseHeaders := headers, responses := s.responses + [statusLine + headers + body],
       pending := Some(WriteResponse))
  }

  predicate CanSend(s: Service) {
    s.resourceSize <= |s.resourceBuffer|
  }

  function Answer(s: Service, status: nat): Service
    requires status in STATUS_TABLE && CanSend(s)
  {
    Send(s.(statusCode := status))
  }

  // OnErrorWithRes for an error: only a full buffer is answered.
  function Failed(s: Service, ec: ErrorCode): Service
    requires CanSend(s)
  {
    if ec == NotFound then Answer(s, 413) else Delete(s)
  }

  function OnRequestLine(s: Service): Service
    requires CanSend(s)
  {
    var (stream, line) := GetLine(IStream(s.request, true), '\r', "");
    var s := s.(request := Get(stream).buf);
    var (words, verb) := ReadToken(IStream(line, true), "");
    if verb != "GET" then Answer(s, 501)
    else
      var (words, resource) := ReadToken(words, s.resource);
      var (words, resource) := ReadToken(words, resource);  // the version, as written
      OnVersion(s.(resource := resource), "")
  }

  function OnVersion(s: Service, version: string): Service
    requires CanSend(s)
  {
    if version != "HTTP/1.1" then Answer(s, 505) else s.(pending := Some(ReadHeaders))
  }

  // What the loop of lines 92-99 makes of a stream: up to a ':' a name, up to a CR its value, one character is
  // dropped, and so on to the end, which a name without ':' reaches.
  function ReadFields(stream: IStream, headers: map<string, string>): map<string, string>
    decreases |stream.buf|
  {
    if !stream.good then headers
    else
      var (stream1, name) := GetLine(stream, ':', "");
      if !stream1.good then headers
      else
        var (stream2, value) := GetLine(stream1, '\r', "");
        ReadFields(Get(stream2), headers[name := value])
  }

  // ProcessRequest, with the test on `exists` as written.
  function Process(s: Service, file: File): Service {
    if file.present then s.(statusCode := 404)
    else if !file.opens then s.(statusCode := 500)
    else
      s.(resourceSize := |file.bytes|, resourceBuffer := file.bytes,
         responseHeaders := s.responseHeaders + "content-length" + ": " + ToDecimal(|file.bytes|) + "\r\n")
  }

  // The handler of the pending operation, which completes with ec and leaves buf in the request buffer.
  function Complete(s: Service, ec: ErrorCode, buf: string, file: File): Service
    requires s.pending.Some? && CanSend(s) && s.statusCode in STATUS_TABLE
  {
    var op := s.pending.value;
    var s := s.(pending := None);
    match op
    case ReadLine =>
      var s := s.(request := buf);
      if ec != Success then Failed(s, ec) else OnRequestLine(s)
    case ReadHeaders =>
      var s := s.(request := buf);
      if ec != Success then Failed(s, ec)
      else Send(Process(s.(requestHeaders := ReadFields(IStream(buf, true), s.requestHeaders), request := ""), file))
    case WriteResponse => Delete(s)
  }

  // ---- Every run of a service ----

  datatype Completion = Completion(ec: ErrorCode, buf: string, file: File)

  // The status is always a key of the table, and a service that is not deleted has exactly one operation in
  // flight; it has sent at most one response, and only as its last operation.
  predicate ServiceOk(s: Service) {
    && s.statusCode in STATUS_TABLE && CanSend(s)
    && (if s.pending.Some? then 1 else 0) + s.deletes == 1
    && |s.responses| <= 1
    && (s.pending.Some? ==> (s.responses != [] <==> s.pending == Some(WriteResponse)))
  }

  lemma RequestLineOk(s: Service)
    requires s.statusCode in STATUS_TABLE && CanSend(s) && s.pending == None && s.deletes == 0 && s.responses == []
    ensures ServiceOk(OnRequestLine(s))
  {}

  lemma CompleteOk(s: Service, ec: ErrorCode, buf: string, file: File)
    requires ServiceOk(s) && s.pending.Some?
    ensures ServiceOk(Complete(s, ec, buf, file))
  {
    if s.pending == Some(ReadLine) {
      RequestLineOk(s.(pending := None, request := buf));
    }
  }

  // A completion is possible only while an operation is in flight.
  function Run(s: Service, completions: seq<Completion>): (r: Service)
    requires ServiceOk(s)
    ensures ServiceOk(r)
    decreases |completions|
  {
    if completions == [] then s
    else
      var x := completions[0];
      if s.pending.Some? then
        CompleteOk(s, x.ec, x.buf, x.file);
        Run(Complete(s, x.ec, x.buf, x.file), completions[1..])
      else
        s
  }

  predicate EndsAfter(s: Service, n: nat) {
    match s.pending
    case None => true
    case Some(ReadLine) => n >= 3
    case Some(ReadHeaders) => n >= 2
    case Some(WriteResponse) => n >= 1
  }

  // Three completions at most, and the object has deleted itself exactly once.
  lemma {:induction false} DeletesItself(s: Service, completions: seq<Completion>)
    requires ServiceOk(s) && EndsAfter(s, |completions|)
    ensures var r := Run(s, completions); r.deletes == 1 && r.pending == None && |r.responses| <= 1
    decreases |completions|
  {
    if completions != [] && s.pending.Some? {
      var x := completions[0];
      CompleteOk(s, x.ec, x.buf, x.file);
      DeletesItself(Complete(s, x.ec, x.buf, x.file), completions[1..]);
    }
  }

  // ---- The request line ----

  function ErrorText(status: nat): string
    requires status in STATUS_TABLE
  {
    "HTTP/1.1 " + STATUS_TABLE[status] + "\r\n" + "\r\n"
  }

  // What these responses are on the wire.
  lemma ErrorTexts()
    ensures ErrorText(404) == "HTTP/1.1 " + "404 Not Found" + "\r\n" + "\r\n"
    ensures ErrorText(413) == "HTTP/1.1 " + "431 Request Entity Too Large" + "\r\n" + "\r\n"
    ensures ErrorText(500) == "HTTP/1.1 " + "500 Server Error" + "\r\n" + "\r\n"
    ensures ErrorText(501) == "HTTP/1.1 " + "501 Not Implemented" + "\r\n" + "\r\n"
    ensures ErrorText(505) == "HTTP/1.1 " + "505 HTTP Version Not Supported" + "\r\n" + "\r\n"
  {}

  function FirstToken(line: string): string {
    ReadToken(IStream(line, true), "").1
  }

  // The first handler, run against a connection.
  function ReadRequestLine(c: Conn, file: File): Service {
    var r := ReadUntil("", c, CRLF, Some(REQUEST_LIMIT));
    Complete(STARTED, r.ec, r.buf, file)
  }

  // A response without headers and body.
  lemma BareAnswer(s: Service, status: nat)
    requires status in STATUS_TABLE && s.responseHeaders == "" && s.resourceSize == 0
    ensures Answer(s, status).responses == s.responses + [ErrorText(status)]
  {
    assert "" + "\r\n" == "\r\n";
    assert ErrorText(status) + "" == ErrorText(status);
  }

  lemma RequestLineAnswer(s: Service)
    requires s.responseHeaders == "" && s.resourceSize == 0 && s.responses == []
    ensures var line := GetLine(IStream(s.request, true), '\r', "").1;
      OnRequestLine(s).responses == [ErrorText(if FirstToken(line) == "GET" then 505 else 501)]
  {
    var (stream, line) := GetLine(IStream(s.request, true), '\r', "");
    var t := s.(request := Get(stream).buf);
    BareAnswer(t, 501);
    var (words, verb) := ReadToken(IStream(line, true), "");
    var first := ReadToken(words, t.resource);
    BareAnswer(t.(resource := ReadToken(first.0, first.1).1), 505);
  }

  // The line the handler extracts is the stream up to its first CR, however it was cut into pieces.
  lemma LineReceived(c: Conn)
    requires ValidConn(c) && Find(Fitting(Bytes(c), Some(REQUEST_LIMIT)), CRLF) >= 0
    ensures var r := ReadUntil("", c, CRLF, Some(REQUEST_LIMIT));
      r.ec == Success && GetLine(IStream(r.buf, true), '\r', "").1 == Bytes(c)[..UpTo(Bytes(c), '\r')]
  {
    var w := Bytes(c);
    var r := ReadUntil("", c, CRLF, Some(REQUEST_LIMIT));
    ReadUntilOutcome("", c, CRLF, Some(REQUEST_LIMIT));
    assert "" + w == w;
    assert r.buf <= w by {
      assert r.buf + Bytes(r.conn) == w;
    }
    FirstCrInPrefix(r.buf, w);
  }

  // A prefix that holds a CRLF holds the first CR.
  lemma FirstCrInPrefix(p: string, w: string)
    requires p <= w && Find(p, CRLF) >= 0
    ensures GetLine(IStream(p, true), '\r', "").1 == w[..UpTo(w, '\r')]
  {
    var i := Find(p, CRLF);
    assert p[i] == p[i..i + 2][0];
    var n := UpTo(p, '\r');
    assert p[..n] == w[..n] && p[n] == w[n];
    UpToIs(w, '\r', n);
  }

  // For every byte stream, in whatever pieces it arrives: 413 iff 4096 bytes arrive without a CRLF; no
  // response if the stream ends earlier; otherwise 501 unless the first word is GET, and then 505.
  lemma RequestLineOutcome(c: Conn, file: File)
    requires ValidConn(c)
    ensures var s, w := ReadRequestLine(c, file), Bytes(c);
      var head := Fitting(w, Some(4096));
      if Find(head, CRLF) >= 0 then
        if FirstToken(w[..UpTo(w, '\r')]) == "GET" then
          s.responses == ["HTTP/1.1 " + "505 HTTP Version Not Supported" + "\r\n" + "\r\n"]
        else s.responses == ["HTTP/1.1 " + "501 Not Implemented" + "\r\n" + "\r\n"]
      else if |w| >= 4096 then s.responses == ["HTTP/1.1 " + "431 Request Entity Too Large" + "\r\n" + "\r\n"]
      else s.responses == [] && s.deletes == 1
  {
    ErrorTexts();
    var r := ReadUntil("", c, CRLF, Some(REQUEST_LIMIT));
    ReadUntilOutcome("", c, CRLF, Some(REQUEST_LIMIT));
    assert "" + Bytes(c) == Bytes(c);
    var s := STARTED.(pending := None, request := r.buf);
    if r.ec == Success {
      LineReceived(c);
    }
    BareAnswer(s, 413);
    RequestLineAnswer(s);
  }

  // What follows the line end stays in the buffer or is still to come, however the stream was cut.
  lemma RestKept(c: Conn, file: File)
    requires ValidConn(c) && Find(Fitting(Bytes(c), Some(4096)), CRLF) >= 0
    ensures UpTo(Bytes(c), '\r') + 2 <= |Bytes(c)|
    ensures var r := ReadUntil("", c, CRLF, Some(4096));
      ReadRequestLine(c, file).request + Bytes(r.conn) == Bytes(c)[UpTo(Bytes(c), '\r') + 2..]
  {
    var r := ReadUntil("", c, CRLF, Some(REQUEST_LIMIT));
    ReadUntilOutcome("", c, CRLF, Some(REQUEST_LIMIT));
    assert "" + Bytes(c) == Bytes(c);
    LineDropped(r.buf);
    SameFirstCr(r.buf, Bytes(r.conn), UpTo(r.buf, '\r'));
    RequestAfterLine(STARTED.(pending := None, request := r.buf));
  }

  lemma LineDropped(p: string)
    requires Find(p, CRLF) >= 0
    ensures UpTo(p, '\r') + 2 <= |p| && Get(GetLine(IStream(p, true), '\r', "").0).buf == p[UpTo(p, '\r') + 2..]
  {
    var i := Find(p, CRLF);
    CrlfAt(p, i);
    LineDrops(p, i);
  }

  lemma LineDrops(p: string, i: nat)
    requires i + 2 <= |p| && p[i] == '\r'
    ensures UpTo(p, '\r') + 2 <= |p| && Get(GetLine(IStream(p, true), '\r', "").0).buf == p[UpTo(p, '\r') + 2..]
  {
    var n := UpTo(p, '\r');
    UpToAtMost(p, '\r', i);
    assert p[n + 1..][1..] == p[n + 2..];
  }

  lemma SameFirstCr(p: string, more: string, n: nat)
    requires n == UpTo(p, '\r') && n + 2 <= |p|
    ensures UpTo(p + more, '\r') == n && (p + more)[n + 2..] == p[n + 2..] + more
  {
    var w := p + more;
    assert p[..n] == w[..n] && p[n] == w[n];
    UpToIs(w, '\r', n);
  }

  lemma RequestAfterLine(s: Service)
    requires CanSend(s)
    ensures OnRequestLine(s).request == Get(GetLine(IStream(s.request, true), '\r', "").0).buf
  {}

  // With less than three words the resource is the last word behind GET, and unchanged if there is none.
  lemma ResourceOfShortLines(s: Service, uri: string, rest: string)
    requires CanSend(s) && uri != "" && SpaceFree(uri)
    ensures s.request == "GET " + uri + CRLF + rest ==> OnRequestLine(s).resource == uri
    ensures s.request == "GET" + CRLF + rest ==> OnRequestLine(s).resource == s.resource
  {
    if s.request == "GET " + uri + CRLF + rest {
      assert "GET" + (" " + uri) == "GET " + uri;
      assert forall i | 0 <= i < |uri| :: !IsSpace(uri[i]);
      LineOf("GET " + uri, rest);
      ReadTokenIs("GET", " " + uri, "");
      ReadLastTokenIs(uri, s.resource);
    }
    if s.request == "GET" + CRLF + rest {
      LineOf("GET", rest);
      ReadWholeToken("GET");
    }
  }

  lemma LineOf(line: string, rest: string)
    requires '\r' !in line
    ensures GetLine(IStream(line + CRLF + rest, true), '\r', "").1 == line
  {
    UpToIs(line + CRLF + rest, '\r', |line|);
  }

  lemma ReadWholeToken(token: string)
    requires token != "" && SpaceFree(token)
    ensures ReadToken(IStream(token, true), "") == (IStream("", false), token)
  {
    assert SkipSpace(token) == token && token[..|token|] == token && token[|token|..] == "";
    TokenLengthIs(token, |token|);
  }

  // What the handler of the headers answers, for a service that has accepted a request line.
  lemma HeadersOutcome(s: Service, ec: ErrorCode, buf: string, file: File)
    requires s == STARTED.(pending := Some(ReadHeaders), request := s.request, resource := s.resource)
    ensures var z := Complete(s, ec, buf, file);
      if ec == NotFound then z.responses == ["HTTP/1.1 " + "431 Request Entity Too Large" + "\r\n" + "\r\n"]
      else if ec != Success then z.responses == [] && z.deletes == 1 && z.pending == None
      else
        && z.requestHeaders == ReadFields(IStream(buf, true), map[]) && z.request == ""
        && z.responses == [
             if file.present then "HTTP/1.1 " + "404 Not Found" + "\r\n" + "\r\n"
             else if !file.opens then "HTTP/1.1 " + "500 Server Error" + "\r\n" + "\r\n"
             else "HTTP/1.1 200 OK\r\n" + ("content-length: " + ToDecimal(|file.bytes|) + "\r\n\r\n") + file.bytes]
  {
    ErrorTexts();
    BareAnswer(s.(pending := None, request := buf), 413);
    var t := s.(pending := None, request := "", requestHeaders := ReadFields(IStream(buf, true), map[]));
    if file.present {
      BareAnswer(t, 404);
    } else if !file.opens {
      BareAnswer(t, 500);
    } else {
      FileSent(t, file);
    }
  }

  lemma FileSent(s: Service, file: File)
    requires s.statusCode == 200 && s.responseHeaders == "" && s.responses == [] && !file.present && file.opens
    ensures Send(Process(s, file)).responses == [
              "HTTP/1.1 200 OK\r\n" + ("content-length: " + ToDecimal(|file.bytes|) + "\r\n\r\n") + file.bytes]
  {
    assert "HTTP/1.1 " + "200 OK" + "\r\n" == "HTTP/1.1 200 OK\r\n";
    var size := ToDecimal(|file.bytes|);
    assert "" + "content-length" + ": " + size + "\r\n" + "\r\n" == "content-length: " + size + "\r\n\r\n";
    assert file.bytes[..|file.bytes|] == file.bytes && (|file.bytes| == 0 ==> file.bytes == "");
  }

  // ---- What the service can send at all ----

  predicate OnlyErrors(s: Service) {
    && s.pending != Some(ReadHeaders) && s.resourceSize == 0
    && (s.responses == [] ==> s.responseHeaders == "")
    && (s.responses != [] ==> exists status | status in {413, 501, 505} :: s.responses == [ErrorText(status)])
  }

  // As written, no run gets past the request line: the headers are never read, and every response is one of
  // the three bare errors.
  lemma {:induction false} HeadersNeverRead(s: Service, completions: seq<Completion>)
    requires ServiceOk(s) && OnlyErrors(s)
    ensures OnlyErrors(Run(s, completions))
    decreases |completions|
  {
    if completions != [] && s.pending.Some? {
      var x := completions[0];
      CompleteOk(s, x.ec, x.buf, x.file);
      if s.pending == Some(ReadLine) {
        var t := s.(pending := None, request := x.buf);
        BareAnswer(t, 413);
        RequestLineAnswer(t);
      }
      HeadersNeverRead(Complete(s, x.ec, x.buf, x.file), completions[1..]);
    }
  }

  // ---- The class ----

  class HttpService {
    var request: string
    var requestHeaders: map<string, string>
    var statusCode: nat
    var resource: string
    var resourceBuffer: string
    var resourceSize: nat
    var responseHeaders: string
    var statusLine: string
    // history
    var pending: Option<Op>
    var responses: seq<string>
    var deletes: nat

    function View(): Service
      reads this
    {
      Service(request, requestHeaders, statusCode, resource, resourceBuffer, resourceSize, responseHeaders, statusLine,
              pending, responses, deletes)
    }

    // No member is touched after `delete this`: every method that reads or writes one requires this.
    predicate Alive()
      reads this
    {
      deletes == 0
    }

    constructor ()
      ensures View() == STARTED.(pending := None)
    {
      request, requestHeaders, statusCode, resource, resourceBuffer, resourceSize := "", map[], 200, "", "", 0;
      responseHeaders, statusLine, pending, responses, deletes := "", "", None, [], 0;
    }

    method StartHandling()
      requires Alive()
      modifies this
      ensures View() == old(View()).(pending := Some(ReadLine))
    {
      pending := Some(ReadLine);
    }

    method OnErrorWithRes(ec: ErrorCode, answered: ErrorCode, status: nat) returns (failed: bool)
      requires Alive() && status in STATUS_TABLE && CanSend(View())
      modifies this
      ensures failed == (ec != Success)
      ensures View() == if ec == Success then old(View())
                        else if ec == answered then Answer(old(View()), status) else Delete(old(View()))
    {
      if ec != Success {
        if ec == answered {
          statusCode := status;
          SendResponse();
        } else {
          OnFinish();
        }
        return true;
      }
      return false;
    }

    method OnRequestLineReceived(ec: ErrorCode, bytes: string, file: File)
      requires Alive() && pending == Some(ReadLine) && CanSend(View()) && statusCode in STATUS_TABLE
      modifies this
      ensures View() == Complete(old(View()), ec, bytes, file)
    {
      pending, request := None, bytes;
      var failed := OnErrorWithRes(ec, NotFound, 413);
      if failed { return; }
      var (stream, requestLine) := GetLine(IStream(request, true), '\r', "");
      request := Get(stream).buf;
      var (words, verb) := ReadToken(IStream(requestLine, true), "");
      if verb != "GET" {
        statusCode := 501;
        SendResponse();
        return;
      }
      var (words1, resource1) := ReadToken(words, resource);
      resource := resource1;
      var version := "";
      var (words2, resource2) := ReadToken(words1, resource);
      resource := resource2;
      CheckVersion(version);
    }

    // Lines 71-78, for any value of request_http_version.
    method CheckVersion(version: string)
      requires Alive() && CanSend(View())
      modifies this
      ensures View() == OnVersion(old(View()), version)
    {
      if version != "HTTP/1.1" {
        statusCode := 505;
        SendResponse();
        return;
      }
      pending := Some(ReadHeaders);
    }

    method OnHeadersReceived(ec: ErrorCode, bytes: string, file: File)
      requires Alive() && pending == Some(ReadHeaders) && CanSend(View()) && statusCode in STATUS_TABLE
      modifies this
      ensures View() == Complete(old(View()), ec, bytes, file)
    {
      pending, request := None, bytes;
      var failed := OnErrorWithRes(ec, NotFound, 413);
      if failed { return; }
      ReadRequestHeaders();
      ProcessRequest(file);
      SendResponse();
    }

    // The header loop, which runs until the buffer is used up.
    method ReadRequestHeaders()
      requires Alive()
      modifies this
      ensures View() == old(View()).(requestHeaders := ReadFields(IStream(old(request), true), old(requestHeaders)),
                                     request := "")
    {
      var name, value := "", "";
      var stream := IStream(request, true);
      while stream.good
        invariant View() == old(View()).(requestHeaders := requestHeaders)
        invariant ReadFields(stream, requestHeaders) == ReadFields(IStream(old(request), true), old(requestHeaders))
        invariant !stream.good ==> stream.buf == ""
        decreases |stream.buf|, stream.good
      {
        var (stream1, text) := GetLine(stream, ':', name);
        stream, name := stream1, text;
        if stream.good {
          var (stream2, text2) := GetLine(stream, '\r', value);
          stream, value := Get(stream2), text2;
          requestHeaders := requestHeaders[name := value];
        }
      }
      request := stream.buf;
    }

    method ProcessRequest(file: File)
      requires Alive()
      modifies this
      ensures View() == Process(old(View()), file)
    {
      if file.present {
        statusCode := 404;
        return;
      }
      if !file.opens {
        statusCode := 500;
        return;
      }
      resourceSize := |file.bytes|;
      resourceBuffer := file.bytes;
      responseHeaders := responseHeaders + "content-length" + ": " + ToDecimal(resourceSize) + "\r\n";
    }

    method SendResponse()
      requires Alive() && statusCode in STATUS_TABLE && CanSend(View())
      modifies this
      ensures View() == Send(old(View()))
    {
      statusLine := "HTTP/1.1 " + STATUS_TABLE[statusCode] + "\r\n";
      responseHeaders := responseHeaders + "\r\n";
      var buffers := statusLine;
      if |responseHeaders| > 0 {
        buffers := buffers + responseHeaders;
      }
      if resourceSize > 0 {
        buffers := buffers + resourceBuffer[..resourceSize];
      } else {
        assert buffers + "" == buffers;
      }
      responses, pending := responses + [buffers], Some(WriteResponse);
    }

    method OnResponseSent(ec: ErrorCode)
      requires Alive() && pending == Some(WriteResponse) && CanSend(View()) && statusCode in STATUS_TABLE
      modifies this
      ensures View() == Complete(old(View()), ec, old(request), File(false, false, ""))
    {
      pending := None;
      OnFinish();
    }

    method OnFinish()
      requires Alive()
      modifies this
      ensures View() == Delete(old(View())) && !Alive()
    {
      deletes := deletes + 1;
    }
  }

  // The object driven by the io_service: the handler of the operation in flight runs for each completion, and
  // nothing is called after the delete.
  method RunService(service: HttpService, completions: seq<Completion>)
    requires ServiceOk(service.View())
    modifies service
    ensures service.View() == Run(old(service.View()), completions)
  {
    var i := 0;
    while i < |completions| && service.pending.Some?
      invariant i <= |completions| && ServiceOk(service.View())
      invariant Run(service.View(), completions[i..]) == Run(old(service.View()), completions)
    {
      var x := completions[i];
      CompleteOk(service.View(), x.ec, x.buf, x.file);
      if service.pending == Some(ReadLine) {
        service.OnRequestLineReceived(x.ec, x.buf, x.file);
      } else if service.pending == Some(ReadHeaders) {
        service.OnHeadersReceived(x.ec, x.buf, x.file);
      } else {
        service.OnResponseSent(x.ec);
      }
      assert completions[i..][1..] == completions[i + 1..];
      i := i + 1;
    }
  }

  // A new object on a connection, up to the end of its first handler.
  method ServeConnection(c: Conn, file: File) returns (service: HttpService)
    ensures fresh(service) && service.View() == ReadRequestLine(c, file)
  {
    service := new HttpService();
    service.StartHandling();
    var r := ReadUntil("", c, CRLF, Some(REQUEST_LIMIT));
    service.OnRequestLineReceived(r.ec, r.buf, file);
  }
}
