// HttpRequest and HttpMessage (005_http/http_request.cpp, http_request.hpp, http_message.hpp).
//
// `Exchange` is the state of one request as a value and `Complete` what the handler of the pending
// operation does to it; the class below has the C++ fields, and each of its methods is proved to do just
// that. A handler is one step: it looks at the cancel flag once, so a Cancel that comes later during the
// handler is the same as a Cancel after it.
module HttpRequest {
  import opened Errors
  import opened HeaderLoop
  import opened Streams
  import opened Wrappers

  // The asynchronous operations in the order in which they are started.
  datatype Stage = Resolve | Connect | Send | ReadStatus | ReadHeaders | ReadBody

  // The contents of an HttpMessage.
  datatype Message = Message(statusCode: nat, statusMessage: string, headers: Headers, buf: string)

  datatype Exchange = Exchange(
    host: string, port: nat, uri: string, verb: string, hasCallback: bool,
    requestBuf: string, response: Message, cancelled: bool,
    // history: the operation in flight, the handlers passed, the calls of OnFinish, the runs of the
    // callback, and whether the header loop was entered and never left
    pending: Option<Stage>, passed: seq<Stage>, finishes: seq<ErrorCode>, callbacks: seq<Message>, hung: bool)

  const UINT32_RANGE: nat := 0x1_0000_0000

  function ToUint32(n: nat): (r: nat)
    ensures r < UINT32_RANGE && (n < UINT32_RANGE ==> r == n)
  {
    n % UINT32_RANGE
  }

  // ---- The status line, lines 101-130 ----

  // The rest is what stays in the buffer.
  datatype StatusLine = BadStatus(rest: string) | GoodStatus(code: nat, message: string, rest: string)

  function ParseStatusLine(buf: string): StatusLine {
    var (stream, version) := ReadToken(IStream(buf, true), "");
    if version != "HTTP/1.1" then BadStatus(stream.buf)
    else
      var (stream, code) := ReadToken(stream, "");
      match Stoul(code)
      case None => BadStatus(stream.buf)
      case Some(number) =>
        var (stream, message) := GetLine(stream, '\r', "");
        GoodStatus(ToUint32(number), message, Get(stream).buf)
  }

  lemma MessageParses(message: string, rest: string)
    requires '\r' !in message
    ensures var (stream, text) := GetLine(IStream(message + CRLF + rest, true), '\r', "");
      text == message && Get(stream).buf == rest
  {
    var tail := message + CRLF + rest;
    UpToIs(tail, '\r', |message|);
    assert tail[..|message|] == message && tail[|message| + 1..][1..] == rest;
  }

  // Another version is refused, and just that word is taken out of the buffer.
  lemma OtherVersionRefused(version: string, rest: string)
    requires version != "" && version != "HTTP/1.1" && SpaceFree(version) && rest != "" && IsSpace(rest[0])
    ensures ParseStatusLine(version + rest) == BadStatus(rest)
  {
    ReadTokenIs(version, rest, "");
  }

  // "HTTP/1.1 code text" is read up to its CRLF, whatever follows; the space stays with the text.
  lemma StatusLineParses(code: string, message: string, rest: string)
    requires code != "" && SpaceFree(code)
    requires '\r' !in message && (message != "" ==> IsSpace(message[0]))
    ensures ParseStatusLine("HTTP/1.1 " + code + message + CRLF + rest) ==
              match Stoul(code)
              case None => BadStatus(message + CRLF + rest)
              case Some(number) => GoodStatus(ToUint32(number), message, rest)
  {
    var tail := message + CRLF + rest;
    assert "HTTP/1.1 " + code + message + CRLF + rest == "HTTP/1.1" + (" " + code + tail);
    assert tail[0] == if message == "" then '\r' else message[0];
    ReadTokenIs("HTTP/1.1", " " + code + tail, "");
    ReadTokenIs(code, tail, "");
    MessageParses(message, rest);
  }

  // A status line that is good by itself is parsed in the same way whatever follows it.
  lemma StatusLineExtends(line: string, more: string)
    requires EndsLine(line) && ParseStatusLine(line).GoodStatus?
    ensures var p := ParseStatusLine(line);
      && |p.rest| <= |line| && p.rest == line[|line| - |p.rest|..]
      && ParseStatusLine(line + more) == p.(rest := p.rest + more)
  {
    var (stream1, version) := ReadToken(IStream(line, true), "");
    var (stream2, code) := ReadToken(stream1, "");
    StatusWordsExtend(line, more);
    LineExtends(stream2.buf, more);
  }

  lemma StatusWordsExtend(line: string, more: string)
    requires EndsLine(line) && ParseStatusLine(line).GoodStatus?
    ensures var (stream1, version) := ReadToken(IStream(line, true), "");
      var (stream2, code) := ReadToken(stream1, "");
      var rest := stream2.buf;
      && stream2.good && EndsLine(rest) && |rest| <= |line| && rest == line[|line| - |rest|..]
      && var (stream1', version') := ReadToken(IStream(line + more, true), "");
        version' == version && ReadToken(stream1', "") == (IStream(rest + more, true), code)
  {
    var (stream1, version) := ReadToken(IStream(line, true), "");
    ReadTokenInLine(line, "");
    ReadTokenExtends(line, more, "");
    ReadTokenInLine(stream1.buf, "");
    ReadTokenExtends(stream1.buf, more, "");
  }

  lemma LineExtends(s: string, more: string)
    requires EndsLine(s)
    ensures var (stream, text) := GetLine(IStream(s, true), '\r', "");
      var rest := Get(stream).buf;
      && |rest| <= |s| && rest == s[|s| - |rest|..]
      && var (stream', text') := GetLine(IStream(s + more, true), '\r', "");
        text' == text && Get(stream').buf == rest + more
  {
    var n := UpTo(s, '\r');
    UpToAtMost(s, '\r', |s| - 2);
    var all := s + more;
    assert all[..n] == s[..n] && all[n] == s[n];
    UpToIs(all, '\r', n);
    assert all[n + 1..][1..] == s[n + 1..][1..] + more;
  }

  // A first line with a wrong version, or with a version and a code that is no number, is bad whatever
  // follows it.
  lemma BadLineExtends(line: string, more: string)
    requires EndsLine(line) && ParseStatusLine(line).BadStatus?
    requires var (stream, version) := ReadToken(IStream(line, true), "");
      version != "" && (version == "HTTP/1.1" ==> ReadToken(stream, "").1 != "")
    ensures ParseStatusLine(line + more).BadStatus?
  {
    var (stream, version) := ReadToken(IStream(line, true), "");
    ReadTokenInLine(line, "");
    ReadTokenExtends(line, more, "");
    if version == "HTTP/1.1" {
      ReadTokenInLine(stream.buf, "");
      ReadTokenExtends(stream.buf, more, "");
    }
  }

  // ---- The handlers ----

  // What the request line and the Host header look like on the wire, lines 72-74.
  function RequestText(e: Exchange): string {
    e.verb + " " + e.uri + " HTTP/1.1\r\n" + "Host: " + e.host + "\r\n" + "\r\n"
  }

  function Begin(e: Exchange, stage: Stage): Exchange {
    e.(pending := Some(stage))
  }

  // OnFinish drops the callback unless there is no error.
  function Finish(e: Exchange, ec: ErrorCode): Exchange {
    var e := e.(finishes := e.finishes + [ec]);
    if ec != Success then e else e.(callbacks := e.callbacks + [e.response])
  }

  function Pass(e: Exchange, stage: Stage): Exchange {
    e.(passed := e.passed + [stage])
  }

  // Execute throws on an incomplete request, and otherwise starts the name resolution.
  function Executed(e: Exchange): Option<Exchange> {
    if e.port <= 0 || e.host == "" || e.uri == "" || !e.hasCallback then None
    else Some(if e.cancelled then Finish(e, Aborted) else Begin(e, Resolve))
  }

  // The handler of the pending operation, which completes with ec and leaves buf in the message buffer.
  function Complete(e: Exchange, ec: ErrorCode, buf: string): Exchange
    requires e.pending.Some?
  {
    var stage := e.pending.value;
    var e := e.(pending := None, response := e.response.(buf := buf));
    if stage == ReadBody then OnBody(e, ec)
    else if ec != Success then Finish(e, ec)
    else if e.cancelled then Finish(e, Aborted)
    else
      match stage
      case Resolve => Begin(Pass(e, Resolve), Connect)
      case Connect => Begin(Pass(e, Connect).(requestBuf := e.requestBuf + RequestText(e)), Send)
      case Send => Begin(Pass(e, Send), ReadStatus)
      case ReadStatus => OnStatusLine(e)
      case ReadHeaders => OnHeaders(e)
  }

  function OnStatusLine(e: Exchange): Exchange {
    match ParseStatusLine(e.response.buf)
    case BadStatus(rest) => Finish(e.(response := e.response.(buf := rest)), InvalidResponse)
    case GoodStatus(code, message, rest) =>
      var response := e.response.(statusCode := code, statusMessage := message, buf := rest);
      Begin(Pass(e.(response := response), ReadStatus), ReadHeaders)
  }

  function OnHeaders(e: Exchange): Exchange {
    match Scan(e.response.buf, "", e.response.headers)
    case Hangs(headers) => e.(hung := true, response := e.response.(headers := headers, buf := ""))
    case Stops(headers, rest) =>
      Begin(Pass(e.(response := e.response.(headers := headers, buf := rest)), ReadHeaders), ReadBody)
  }

  function OnBody(e: Exchange, ec: ErrorCode): Exchange {
    if ec == Eof then Finish(Pass(e, ReadBody), Success)
    else Finish(if ec == Success then Pass(e, ReadBody) else e, ec)
  }

  function Cancelled(e: Exchange): Exchange {
    e.(cancelled := true)
  }

  // ---- Every run of a request ----

  datatype Event = Completion(ec: ErrorCode, buf: string) | CancelCall

  // A completion is possible only while an operation is in flight.
  function Next(e: Exchange, ev: Event): Exchange {
    match ev
    case CancelCall => Cancelled(e)
    case Completion(ec, buf) => if e.pending.Some? then Complete(e, ec, buf) else e
  }

  function Run(e: Exchange, events: seq<Event>): Exchange
    decreases |events|
  {
    if events == [] then e else Run(Next(e, events[0]), events[1..])
  }

  function Passed(stage: Stage): seq<Stage> {
    match stage
    case Resolve => []
    case Connect => [Resolve]
    case Send => [Resolve, Connect]
    case ReadStatus => [Resolve, Connect, Send]
    case ReadHeaders => [Resolve, Connect, Send, ReadStatus]
    case ReadBody => [Resolve, Connect, Send, ReadStatus, ReadHeaders]
  }

  // Exactly one of: an operation in flight, the header loop hanging, one call of OnFinish.
  predicate OneOutcome(e: Exchange) {
    (if e.pending.Some? then 1 else 0) + (if e.hung then 1 else 0) + |e.finishes| == 1
  }

  predicate ExchangeOk(e: Exchange) {
    && OneOutcome(e)
    && (e.pending.Some? ==> e.passed == Passed(e.pending.value))
    && (e.callbacks == [] || |e.callbacks| == 1)
    && (e.callbacks != [] <==> e.finishes != [] && e.finishes[0] == Success)
    && (e.callbacks != [] ==> e.passed == Passed(ReadBody) + [ReadBody])
  }

  // Inside the handler of a stage, after the two checks.
  predicate Handling(e: Exchange, stage: Stage) {
    e.pending == None && !e.hung && e.passed == Passed(stage) && e.finishes == [] && e.callbacks == []
  }

  lemma FinishOk(e: Exchange, ec: ErrorCode)
    requires Handling(e, ReadBody) || (ec != Success && exists stage :: Handling(e, stage))
    ensures ec != Success ==> ExchangeOk(Finish(e, ec))
    ensures Handling(e, ReadBody) ==> ExchangeOk(Finish(Pass(e, ReadBody), ec))
  {}

  lemma CompleteOk(e: Exchange, ec: ErrorCode, buf: string)
    requires ExchangeOk(e) && e.pending.Some?
    ensures ExchangeOk(Complete(e, ec, buf))
  {
    var stage := e.pending.value;
    var e1 := e.(pending := None, response := e.response.(buf := buf));
    assert Handling(e1, stage);
    if stage == ReadBody || ec != Success {
      FinishOk(e1, ec);
    } else if e.cancelled {
      FinishOk(e1, Aborted);
    } else if stage == ReadStatus {
      StatusLineOk(e1);
    } else if stage == ReadHeaders {
      HeadersOk(e1);
    }
  }

  lemma StatusLineOk(e: Exchange)
    requires Handling(e, ReadStatus)
    ensures ExchangeOk(OnStatusLine(e))
  {
    var e2 := e.(response := e.response.(buf := ParseStatusLine(e.response.buf).rest));
    assert Handling(e2, ReadStatus);
    FinishOk(e2, InvalidResponse);
  }

  lemma HeadersOk(e: Exchange)
    requires Handling(e, ReadHeaders)
    ensures ExchangeOk(OnHeaders(e))
  {}

  lemma OkKept(e: Exchange, ev: Event)
    requires ExchangeOk(e)
    ensures ExchangeOk(Next(e, ev))
  {
    if ev.Completion? && e.pending.Some? {
      CompleteOk(e, ev.ec, ev.buf);
    }
  }

  lemma {:induction false} OkAlong(e: Exchange, events: seq<Event>)
    requires ExchangeOk(e)
    ensures ExchangeOk(Run(e, events))
    decreases |events|
  {
    if events != [] {
      OkKept(e, events[0]);
      OkAlong(Next(e, events[0]), events[1..]);
    }
  }

  // The event is a successful read of the headers, without a cancel before it, whose bytes have neither an
  // empty segment nor an end just after a segment, so that the header loop goes on for ever.
  predicate Hangs(e: Exchange, ev: Event) {
    && ev.Completion? && ev.ec == Success && e.pending == Some(ReadHeaders) && !e.cancelled
    && !Closes(ev.buf) && !Exhausts(ev.buf)
  }

  predicate HangsAlong(e: Exchange, events: seq<Event>)
    decreases |events|
  {
    events != [] && (Hangs(e, events[0]) || HangsAlong(Next(e, events[0]), events[1..]))
  }

  lemma HungStep(e: Exchange, ev: Event)
    ensures Next(e, ev).hung <==> e.hung || Hangs(e, ev)
  {
    if ev.Completion? && e.pending.Some? {
      CompleteHangs(e, ev.ec, ev.buf);
    }
  }

  lemma CompleteHangs(e: Exchange, ec: ErrorCode, buf: string)
    requires e.pending.Some?
    ensures Complete(e, ec, buf).hung <==> e.hung || Hangs(e, Completion(ec, buf))
  {
    ScanStopsIff(buf, "", e.response.headers);
  }

  lemma {:induction false} HungIff(e: Exchange, events: seq<Event>)
    ensures Run(e, events).hung <==> e.hung || HangsAlong(e, events)
    decreases |events|
  {
    if events != [] {
      HungStep(e, events[0]);
      HungIff(Next(e, events[0]), events[1..]);
    }
  }

  // How many operations can still be started and completed.
  function StagesLeft(e: Exchange): nat {
    match e.pending
    case None => 0
    case Some(Resolve) => 6
    case Some(Connect) => 5
    case Some(Send) => 4
    case Some(ReadStatus) => 3
    case Some(ReadHeaders) => 2
    case Some(ReadBody) => 1
  }

  function Completions(events: seq<Event>): nat {
    if events == [] then 0 else (if events[0].Completion? then 1 else 0) + Completions(events[1..])
  }

  lemma EarlyUsesStage(e: Exchange, ec: ErrorCode, buf: string)
    requires e.pending.Some? && e.pending.value != ReadStatus && e.pending.value != ReadHeaders
    ensures StagesLeft(Complete(e, ec, buf)) < StagesLeft(e)
  {}

  lemma StatusUsesStage(e: Exchange, ec: ErrorCode, buf: string)
    requires e.pending == Some(ReadStatus)
    ensures StagesLeft(Complete(e, ec, buf)) < StagesLeft(e)
  {}

  lemma HeadersUseStage(e: Exchange, ec: ErrorCode, buf: string)
    requires e.pending == Some(ReadHeaders)
    ensures StagesLeft(Complete(e, ec, buf)) < StagesLeft(e)
  {}

  lemma CompleteUsesStage(e: Exchange, ec: ErrorCode, buf: string)
    requires e.pending.Some?
    ensures StagesLeft(Complete(e, ec, buf)) < StagesLeft(e)
  {
    if e.pending.value == ReadStatus {
      StatusUsesStage(e, ec, buf);
    } else if e.pending.value == ReadHeaders {
      HeadersUseStage(e, ec, buf);
    } else {
      EarlyUsesStage(e, ec, buf);
    }
  }

  lemma {:induction false} RunsOut(e: Exchange, events: seq<Event>)
    requires Completions(events) >= StagesLeft(e)
    ensures Run(e, events).pending == None
    decreases |events|
  {
    if events != [] {
      if events[0].Completion? && e.pending.Some? {
        CompleteUsesStage(e, events[0].ec, events[0].buf);
      }
      RunsOut(Next(e, events[0]), events[1..]);
    }
  }

  // A request as the constructor and the setters leave it.
  predicate NewExchange(e: Exchange) {
    && e.requestBuf == "" && e.response.headers == map[] && e.response.buf == ""
    && e.pending == None && e.passed == [] && e.finishes == [] && e.callbacks == [] && !e.hung
  }

  // After one Execute that does not throw, however its operations complete and whenever Cancel is called:
  // after six completions nothing is in flight any more, and as soon as that is so OnFinish has run exactly
  // once, unless the header loop was given bytes on which it hangs; the callback runs at most once, exactly
  // when OnFinish got no error, and only after all six stages.
  lemma FinishesOnce(e: Exchange, events: seq<Event>)
    requires NewExchange(e) && e.port != 0 && e.host != "" && e.uri != "" && e.hasCallback
    ensures Executed(e).Some?
    ensures var r := Run(Executed(e).value, events);
      && (e.cancelled ==> r.finishes == [Aborted] && r.passed == [])
      && (Completions(events) >= 6 ==> r.pending == None)
      && (r.pending == None ==> |r.finishes| == if HangsAlong(Executed(e).value, events) then 0 else 1)
      && |r.callbacks| <= 1
      && (r.callbacks != [] <==> r.finishes == [Success])
      && (r.callbacks != [] ==> r.passed == [Resolve, Connect, Send, ReadStatus, ReadHeaders, ReadBody])
  {
    OkAlong(Executed(e).value, events);
    HungIff(Executed(e).value, events);
    if Completions(events) >= 6 {
      RunsOut(Executed(e).value, events);
    }
    if e.cancelled {
      EndedStays(Executed(e).value, events);
    }
  }

  // When nothing is in flight any more, only a Cancel can still change something, and that only the flag.
  lemma {:induction false} EndedStays(e: Exchange, events: seq<Event>)
    requires e.pending == None
    ensures var r := Run(e, events); r == e || r == Cancelled(e)
    decreases |events|
  {
    if events != [] {
      EndedStays(Next(e, events[0]), events[1..]);
    }
  }

  // How a completion ends a request, at any moment of any run and whatever follows. The body: eof is success,
  // and only then, or without an error, the callback runs, with the buffer as it is. Before: an error is
  // reported as it is, cancelled or not; without one a cancelled request ends as aborted, before anything is
  // printed or started; and a bad status line is an invalid response.
  lemma CompletionEnds(e: Exchange, before: seq<Event>, ec: ErrorCode, buf: string, after: seq<Event>)
    requires NewExchange(e) && Executed(e).Some? && Run(Executed(e).value, before).pending.Some?
    ensures var r := Run(Executed(e).value, before);
      var z, stage := Run(Next(r, Completion(ec, buf)), after), r.pending.value;
      if stage == ReadBody then
        && z.finishes == [if ec == Eof then Success else ec]
        && z.callbacks == if ec == Eof || ec == Success then [r.response.(buf := buf)] else []
      else if ec != Success || r.cancelled then
        && z.finishes == [if ec != Success then ec else Aborted] && z.callbacks == []
        && z.pending == None && z.passed == r.passed && z.requestBuf == r.requestBuf
      else if stage == ReadStatus && ParseStatusLine(buf).BadStatus? then
        z.finishes == [InvalidResponse] && z.callbacks == []
      else true
  {
    OkAlong(Executed(e).value, before);
    var r := Run(Executed(e).value, before);
    var r1 := Next(r, Completion(ec, buf));
    assert r.finishes == [] && r.callbacks == [];
    if r1.pending == None {
      EndedStays(r1, after);
    }
  }

  // ---- What is printed ----

  // The request is printed when the connection is established, and only then.
  predicate PrintedOnce(e: Exchange) {
    e.requestBuf == if |e.passed| < 2 then "" else RequestText(e)
  }

  lemma PrintStep(e: Exchange, ev: Event)
    requires ExchangeOk(e) && PrintedOnce(e)
    ensures var e1 := Next(e, ev);
      PrintedOnce(e1) && e1.verb == e.verb && e1.uri == e.uri && e1.host == e.host && |e1.passed| >= |e.passed|
  {
    if ev.Completion? && e.pending.Some? {
      if e.pending.value == ReadStatus || e.pending.value == ReadHeaders {
        LateCompletionPrintsNothing(e, ev.ec, ev.buf);
      } else {
        EarlyCompletionPrints(e, ev.ec, ev.buf);
      }
    }
  }

  lemma EarlyCompletionPrints(e: Exchange, ec: ErrorCode, buf: string)
    requires ExchangeOk(e) && PrintedOnce(e) && e.pending.Some?
    requires e.pending.value != ReadStatus && e.pending.value != ReadHeaders
    ensures var e1 := Complete(e, ec, buf);
      PrintedOnce(e1) && e1.verb == e.verb && e1.uri == e.uri && e1.host == e.host && |e1.passed| >= |e.passed|
  {
    assert "" + RequestText(e) == RequestText(e);
  }

  lemma LateCompletionPrintsNothing(e: Exchange, ec: ErrorCode, buf: string)
    requires e.pending == Some(ReadStatus) || e.pending == Some(ReadHeaders)
    ensures var e1 := Complete(e, ec, buf);
      && e1.requestBuf == e.requestBuf && e1.verb == e.verb && e1.uri == e.uri && e1.host == e.host
      && (e1.passed == e.passed || e1.passed == e.passed + [e.pending.value])
  {}

  lemma {:induction false} PrintAlong(e: Exchange, events: seq<Event>)
    requires ExchangeOk(e) && PrintedOnce(e)
    ensures var r := Run(e, events);
      PrintedOnce(r) && r.verb == e.verb && r.uri == e.uri && r.host == e.host && |r.passed| >= |e.passed|
    decreases |events|
  {
    if events != [] {
      PrintStep(e, events[0]);
      OkKept(e, events[0]);
      PrintAlong(Next(e, events[0]), events[1..]);
    }
  }

  // An uncancelled request whose name resolution and connect succeed has passed both.
  lemma {:induction false} ResolvedAndConnected(e: Exchange, events: seq<Event>)
    requires NewExchange(e) && Executed(e).Some? && !e.cancelled && |events| >= 2
    requires events[0].Completion? && events[0].ec == Success && events[1].Completion? && events[1].ec == Success
    ensures |Run(Executed(e).value, events).passed| >= 2
  {
    var e1 := Next(Executed(e).value, events[0]);
    var e2 := Next(e1, events[1]);
    OkAlong(Executed(e).value, []);
    OkKept(Executed(e).value, events[0]);
    OkKept(e1, events[1]);
    assert "" + RequestText(e1) == RequestText(e1);
    PrintAlong(e2, events[2..]);
    assert events[1..][0] == events[1] && events[1..][1..] == events[2..];
    assert Run(Executed(e).value, events) == Run(e1, events[1..]) == Run(e2, events[2..]);
  }

  // ---- Cancel ----

  lemma {:induction false} CancelledStays(e: Exchange, events: seq<Event>)
    requires e.cancelled && e.callbacks == [] && e.pending != Some(ReadBody)
    ensures var r := Run(e, events); r.callbacks == [] && r.pending != Some(ReadBody)
    decreases |events|
  {
    if events != [] {
      CancelledStays(Next(e, events[0]), events[1..]);
    }
  }

  // A Cancel before the check in OnHeadersReceived, i.e. before the body is being read, stops the callback.
  lemma CancelStopsCallback(e: Exchange, before: seq<Event>, after: seq<Event>)
    requires NewExchange(e) && Executed(e).Some?
    requires var r := Run(Executed(e).value, before); r.callbacks == [] && r.pending != Some(ReadBody)
    ensures Run(Cancelled(Run(Executed(e).value, before)), after).callbacks == []
  {
    CancelledStays(Cancelled(Run(Executed(e).value, before)), after);
  }

  // A later Cancel changes nothing but the flag: whatever follows, the body is read and the callback runs as
  // without it.
  lemma {:induction false} LateCancelIsIgnored(e: Exchange, after: seq<Event>)
    requires e.pending == Some(ReadBody) || e.pending == None
    ensures Run(Cancelled(e), after) == Cancelled(Run(e, after))
    decreases |after|
  {
    if after != [] {
      assert Next(Cancelled(e), after[0]) == Cancelled(Next(e, after[0]));
      LateCancelIsIgnored(Next(e, after[0]), after[1..]);
    }
  }

  // ---- The classes ----

  class HttpMessage {
    var statusCode: nat
    var statusMessage: string
    var headers: Headers
    var buf: string

    constructor ()
      ensures Contents() == Message(0, "", map[], "")
    {
      statusCode, statusMessage, headers, buf := 0, "", map[], "";
    }

    function Contents(): Message
      reads this
    {
      Message(statusCode, statusMessage, headers, buf)
    }

    method SetStatusCode(code: nat)
      modifies this
      ensures Contents() == old(Contents()).(statusCode := code)
    {
      statusCode := code;
    }

    method SetStatusMessage(message: string)
      modifies this
      ensures Contents() == old(Contents()).(statusMessage := message)
    {
      statusMessage := message;
    }

    method AddHeader(name: string, value: string)
      modifies this
      ensures Contents() == old(Contents()).(headers := old(headers)[name := value])
    {
      headers := headers[name := value];
    }
  }

  class HttpRequest {
    const host: string
    const port: nat
    const uri: string
    const verb: string
    const hasCallback: bool
    const response: HttpMessage
    var requestBuf: string
    var wasCancelled: bool
    // history
    var pending: Option<Stage>
    var passed: seq<Stage>
    var finishes: seq<ErrorCode>
    var callbacks: seq<Message>
    var hung: bool

    function View(): Exchange
      reads this, response
    {
      Exchange(host, port, uri, verb, hasCallback, requestBuf, response.Contents(), wasCancelled,
               pending, passed, finishes, callbacks, hung)
    }

    constructor (host: string, port: nat, uri: string, verb: string, hasCallback: bool)
      ensures fresh(response) && NewExchange(View()) && !wasCancelled
      ensures this.host == host && this.port == port && this.uri == uri && this.verb == verb
      ensures this.hasCallback == hasCallback
    {
      this.host, this.port, this.uri, this.verb, this.hasCallback := host, port, uri, verb, hasCallback;
      requestBuf, wasCancelled := "", false;
      pending, passed, finishes, callbacks, hung := None, [], [], [], false;
      var message := new HttpMessage();
      response := message;
    }

    // The result says whether the call threw.
    method Execute() returns (threw: bool)
      modifies this
      ensures threw <==> port == 0 || host == "" || uri == "" || !hasCallback
      ensures threw <==> Executed(old(View())).None?
      ensures View() == if threw then old(View()) else Executed(old(View())).value
    {
      if port <= 0 || host == "" || uri == "" || !hasCallback {
        return true;
      }
      threw := false;
      var cancelled := IsCancelled();
      if !cancelled {
        pending := Some(Resolve);
      }
    }

    method Cancel()
      modifies this
      ensures View() == Cancelled(old(View()))
    {
      wasCancelled := true;
    }

    method IsCancelled() returns (cancelled: bool)
      modifies this
      ensures cancelled == wasCancelled
      ensures View() == if cancelled then Finish(old(View()), Aborted) else old(View())
    {
      if wasCancelled {
        OnFinish(Aborted);
        return true;
      }
      return false;
    }

    method OnError(ec: ErrorCode) returns (failed: bool)
      modifies this
      ensures failed == (ec != Success)
      ensures View() == if failed then Finish(old(View()), ec) else old(View())
    {
      if ec != Success {
        OnFinish(ec);
        return true;
      }
      return false;
    }

    method OnFinish(ec: ErrorCode)
      modifies this
      ensures View() == Finish(old(View()), ec)
    {
      finishes := finishes + [ec];
      if ec != Success {
        return;
      }
      callbacks := callbacks + [response.Contents()];
    }

    // The library's part in a completion: the operation is no longer in flight, and the bytes it read are
    // in the buffer.
    method Arrive(bytes: string)
      modifies this, response
      ensures View() == old(View()).(pending := None, response := old(response.Contents()).(buf := bytes))
    {
      pending := None;
      response.buf := bytes;
    }

    method OnHostNameResolved(ec: ErrorCode)
      requires pending == Some(Resolve)
      modifies this
      ensures View() == Complete(old(View()), ec, old(response.buf))
    {
      pending := None;
      var stop := OnError(ec);
      if stop { return; }
      stop := IsCancelled();
      if stop { return; }
      passed, pending := passed + [Resolve], Some(Connect);
    }

    method OnConnectionEstablished(ec: ErrorCode)
      requires pending == Some(Connect)
      modifies this
      ensures View() == Complete(old(View()), ec, old(response.buf))
    {
      pending := None;
      var stop := OnError(ec);
      if stop { return; }
      stop := IsCancelled();
      if stop { return; }
      var text := verb + " " + uri + " HTTP/1.1\r\n";
      text := text + "Host: " + host + "\r\n";
      text := text + "\r\n";
      requestBuf := requestBuf + text;
      passed, pending := passed + [Connect], Some(Send);
    }

    method OnRequestSent(ec: ErrorCode)
      requires pending == Some(Send)
      modifies this
      ensures View() == Complete(old(View()), ec, old(response.buf))
    {
      pending := None;
      var stop := OnError(ec);
      if stop { return; }
      stop := IsCancelled();
      if stop { return; }
      passed, pending := passed + [Send], Some(ReadStatus);
    }

    method OnStatusLineReceived(ec: ErrorCode, bytes: string)
      requires pending == Some(ReadStatus)
      modifies this, response
      ensures View() == Complete(old(View()), ec, bytes)
    {
      Arrive(bytes);
      var stop := OnError(ec);
      if stop { return; }
      stop := IsCancelled();
      if stop { return; }

      var (stream, version) := ReadToken(IStream(response.buf, true), "");
      if version != "HTTP/1.1" {
        response.buf := stream.buf;
        OnFinish(InvalidResponse);
        return;
      }
      var (stream1, codeText) := ReadToken(stream, "");
      var code := Stoul(codeText);
      if code.None? {
        response.buf := stream1.buf;
        OnFinish(InvalidResponse);
        return;
      }
      var (stream2, message) := GetLine(stream1, '\r', "");
      response.buf := Get(stream2).buf;
      response.SetStatusCode(ToUint32(code.value));
      response.SetStatusMessage(message);
      passed, pending := passed + [ReadStatus], Some(ReadHeaders);
    }

    // The header loop on the message buffer. It cannot be left once the stream has failed after a non-empty
    // segment (StuckForever): that is the outcome `left == false`.
    method ReadHeaderLines() returns (left: bool)
      modifies response
      ensures var r, m := Scan(old(response.buf), "", old(response.headers)), old(response.Contents());
        && left == r.Stops?
        && response.Contents() == m.(headers := r.headers, buf := if left then r.rest else "")
    {
      var header, headerName, headerValue := "", "", "";
      var stream := IStream(response.buf, true);
      ghost var whole := Scan(response.buf, "", response.headers);
      while true
        invariant response.Contents() == old(response.Contents()).(headers := response.headers)
        invariant stream.good ==> Scan(stream.buf, headerName, response.headers) == whole
        invariant !stream.good ==> Stuck(Loop(stream, header, headerName, response.headers, false))
        invariant !stream.good ==> whole == Hangs(response.headers)
        decreases |stream.buf|, stream.good
      {
        if !stream.good {
          response.buf := "";
          return false;
        }
        TurnOnGoodStream(Loop(stream, header, headerName, response.headers, false));
        var (stream1, line) := GetLine(stream, '\r', header);
        stream, header := Get(stream1), line;
        if header == "" {
          break;
        }
        var separator := UpTo(header, ':');
        if separator < |header| {
          headerName := header[..separator];
        }
        if separator + 1 < |header| {
          headerValue := header[separator + 1..];
        } else {
          headerValue := "";
        }
        response.AddHeader(headerName, headerValue);
      }
      response.buf := stream.buf;
      left := true;
    }

    method OnHeadersReceived(ec: ErrorCode, bytes: string)
      requires pending == Some(ReadHeaders)
      modifies this, response
      ensures View() == Complete(old(View()), ec, bytes)
    {
      Arrive(bytes);
      var stop := OnError(ec);
      if stop { return; }
      stop := IsCancelled();
      if stop { return; }
      var left := ReadHeaderLines();
      if left {
        passed, pending := passed + [ReadHeaders], Some(ReadBody);
      } else {
        hung := true;
      }
    }

    method OnResponseBodyReceived(ec: ErrorCode, bytes: string)
      requires pending == Some(ReadBody)
      modifies this, response
      ensures View() == Complete(old(View()), ec, bytes)
    {
      Arrive(bytes);
      if ec == Eof || ec == Success {
        passed := passed + [ReadBody];
      }
      if ec == Eof {
        OnFinish(Success);
      } else {
        OnFinish(ec);
      }
    }
  }
}
