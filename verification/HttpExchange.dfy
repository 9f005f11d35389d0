// HttpRequest and HttpService together: what one prints and the other parses.
module HttpExchange {
  import opened Asio
  import opened Errors
  import opened HeaderLoop
  import opened HttpReceive
  import opened HttpRequest
  import opened HttpSegmentation
  import S = HttpService
  import opened Streams
  import opened Wrappers

  // ---- Client to server: the request line ----

  lemma ThreeWords(a: string, b: string, c: string, target: string)
    requires a != "" && b != "" && c != "" && SpaceFree(a) && SpaceFree(b) && SpaceFree(c)
    ensures var (rest1, word1) := ReadToken(IStream(a + (" " + b + (" " + c)), true), "");
      var (rest2, word2) := ReadToken(rest1, target);
      var (rest3, word3) := ReadToken(rest2, word2);
      word1 == a && word2 == b && word3 == c
  {
    var tail := " " + c;
    var rest := " " + b + tail;
    ReadTokenIs(a, rest, "");
    ReadTokenIs(b, tail, target);
    ReadLastTokenIs(c, b);
  }

  // The words of "verb uri HTTP/1.1" (section 3.1.1 of RFC 7230).
  lemma RequestLineWords(verb: string, uri: string, target: string)
    requires verb != "" && uri != "" && SpaceFree(verb) && SpaceFree(uri)
    ensures var (rest1, word1) := ReadToken(IStream(verb + " " + uri + " HTTP/1.1", true), "");
      var (rest2, word2) := ReadToken(rest1, target);
      var (rest3, word3) := ReadToken(rest2, word2);
      word1 == verb && word2 == uri && word3 == "HTTP/1.1"
  {
    assert " " + "HTTP/1.1" == " HTTP/1.1";
    assert verb + " " + uri + " HTTP/1.1" == verb + (" " + uri + (" " + "HTTP/1.1"));
    ThreeWords(verb, uri, "HTTP/1.1", target);
  }

  lemma RequestTextLine(e: Exchange)
    requires SpaceFree(e.verb) && SpaceFree(e.uri)
    ensures var line, text := e.verb + " " + e.uri + " HTTP/1.1", RequestText(e);
      |line| + 2 <= |text| && text[..|line| + 2] == line + CRLF && UpTo(text, '\r') == |line| && text[..|line|] == line
  {
    var line, text := e.verb + " " + e.uri + " HTTP/1.1", RequestText(e);
    assert text == line + CRLF + ("Host: " + e.host + "\r\n" + "\r\n");
    assert forall i | 0 <= i < |e.verb| :: !IsSpace(e.verb[i]);
    assert forall i | 0 <= i < |e.uri| :: !IsSpace(e.uri[i]);
    assert '\r' !in line;
    UpToIs(text, '\r', |line|);
  }

  // The request HttpRequest prints, received by HttpService in whatever pieces: its words are read as
  // printed, and for GET the version lands in m_requested_resource and the answer is 505.
  lemma PrintedRequestAnswered(e: Exchange, c: Conn, file: S.File)
    requires ValidConn(c) && Bytes(c) == RequestText(e)
    requires e.verb != "" && e.uri != "" && SpaceFree(e.verb) && SpaceFree(e.uri)
    requires |e.verb + " " + e.uri + " HTTP/1.1\r\n"| <= 4096
    ensures var s := S.ReadRequestLine(c, file);
      && s.responses == [S.ErrorText(if e.verb == "GET" then 505 else 501)]
      && s.resource == (if e.verb == "GET" then "HTTP/1.1" else "")
  {
    var line := e.verb + " " + e.uri + " HTTP/1.1";
    var head := Fitting(Bytes(c), Some(S.REQUEST_LIMIT));
    RequestTextLine(e);
    assert head[|line|..|line| + 2] == Bytes(c)[..|line| + 2][|line|..];
    assert Occurs(head, CRLF, |line|);
    S.LineReceived(c);
    RequestLineWords(e.verb, e.uri, "");
    var r := ReadUntil("", c, CRLF, Some(S.REQUEST_LIMIT));
    S.RequestLineAnswer(S.STARTED.(pending := None, request := r.buf));
  }

  // What HttpRequest has in its buffer at any moment of any run: nothing before the connection is established,
  // and from then on, for a verb, URI and host without CR, the request line "verb uri HTTP/1.1", and behind it
  // just the header Host, whose value is the host after a space, and a blank line.
  lemma RequestPrinted(e: Exchange, events: seq<Event>)
    requires NewExchange(e) && Executed(e).Some?
    requires '\r' !in e.verb && '\r' !in e.uri && '\r' !in e.host
    ensures var r := Run(Executed(e).value, events);
      var w := r.requestBuf;
      var i := Find(w, CRLF);
      if |r.passed| < 2 then w == ""
      else
        && i >= 0 && w[..i] == e.verb + " " + e.uri + " HTTP/1.1"
        && Scan(w[i + 2..], "", map[]) == Stops(map["Host" := " " + e.host], "")
  {
    PrintAlong(Executed(e).value, events);
    HostParses(e);
  }

  lemma HostParses(e: Exchange)
    requires '\r' !in e.verb && '\r' !in e.uri && '\r' !in e.host
    ensures var w, i := RequestText(e), Find(RequestText(e), CRLF);
      && i >= 0 && w[..i] == e.verb + " " + e.uri + " HTTP/1.1"
      && Scan(w[i + 2..], "", map[]) == Stops(map["Host" := " " + e.host], "")
  {
    var line, host := e.verb + " " + e.uri + " HTTP/1.1", Header("Host", " " + e.host);
    var rest := Render(HeaderLines([host])) + CRLF + "";
    OneHeaderText(host);
    assert "Host" + ":" + (" " + e.host) == "Host: " + e.host;
    assert RequestText(e) == line + CRLF + rest;
    FirstLineIs(RequestText(e), line, rest);
    FoldOfOneHeader(host);
    LoopFoldsLines(HeaderLines([host]), "", "", map[]);
  }

  lemma OneHeaderText(header: Header)
    ensures Render(HeaderLines([header])) + CRLF + "" == header.name + ":" + header.value + CRLF + CRLF
  {
    var line := header.name + ":" + header.value;
    assert HeaderLines([header]) == [line] && [line][1..] == [];
    assert Render([line]) == line + CRLF + "";
  }

  // Had the third word been read into the version, the request that HttpRequest prints would be accepted.
  lemma PrintedVersionWouldDo(e: Exchange, s: S.Service)
    requires S.CanSend(s) && e.verb != "" && e.uri != "" && SpaceFree(e.verb) && SpaceFree(e.uri)
    ensures var (rest1, verb) := ReadToken(IStream(e.verb + " " + e.uri + " HTTP/1.1", true), "");
      var (rest2, uri) := ReadToken(rest1, "");
      S.OnVersion(s, ReadToken(rest2, uri).1) == s.(pending := Some(S.ReadHeaders))
  {
    RequestLineWords(e.verb, e.uri, "");
  }

  // ---- Client to server: the headers ----

  // On printed headers, with distinct names or not, the loop of HttpService stores what that of HttpRequest
  // stores.
  lemma {:induction false} RequestHeadersRead(headers: seq<Header>, map0: Headers)
    requires forall i | 0 <= i < |headers| :: Printable(headers[i])
    ensures S.ReadFields(IStream(Render(HeaderLines(headers)) + CRLF, true), map0)
         == Fold(HeaderLines(headers), "", map0)
    decreases |headers|
  {
    if headers == [] {
      assert Render(HeaderLines(headers)) + CRLF == CRLF;
      NoFieldRead(map0);
    } else {
      var h, rest := headers[0], Render(HeaderLines(headers[1..])) + CRLF;
      HeadersText(headers, rest);
      OneFieldRead(h, rest, map0);
      RequestHeadersRead(headers[1..], map0[h.name := h.value]);
      FoldHeaders(headers, map0);
    }
  }

  lemma NoFieldRead(map0: Headers)
    ensures S.ReadFields(IStream(CRLF, true), map0) == map0
  {
    UpToIs(CRLF, ':', 2);
  }

  lemma HeadersText(headers: seq<Header>, rest: string)
    requires headers != [] && rest == Render(HeaderLines(headers[1..])) + CRLF
    ensures Render(HeaderLines(headers)) + CRLF == headers[0].name + ":" + headers[0].value + CRLF + rest
  {
    assert HeaderLines(headers)[1..] == HeaderLines(headers[1..]);
  }

  lemma FoldHeaders(headers: seq<Header>, map0: Headers)
    requires headers != [] && forall i | 0 <= i < |headers| :: Printable(headers[i])
    ensures Fold(HeaderLines(headers), "", map0)
         == Fold(HeaderLines(headers[1..]), "", map0[headers[0].name := headers[0].value])
  {
    var h, lines := headers[0], HeaderLines(headers);
    assert lines[1..] == HeaderLines(headers[1..]);
    HeaderLineParts(h);
    NameIsOwn(headers[1..], h.name, map0[h.name := h.value]);
  }

  lemma OneFieldRead(h: Header, rest: string, map0: Headers)
    requires Printable(h)
    ensures S.ReadFields(IStream(h.name + ":" + h.value + CRLF + rest, true), map0)
         == S.ReadFields(IStream(rest, true), map0[h.name := h.value])
  {
    var tail := h.value + CRLF + rest;
    assert h.name + ":" + h.value + CRLF + rest == h.name + ":" + tail;
    NameRead(h.name, tail);
    ValueRead(h.value, rest);
    FieldIs(h.name + ":" + tail, tail, h.name, h.value, rest, map0);
  }

  lemma FieldIs(buf: string, tail: string, name: string, value: string, rest: string, map0: Headers)
    requires UpTo(buf, ':') == |name| < |buf| && buf[..|name|] == name && buf[|name| + 1..] == tail
    requires UpTo(tail, '\r') == |value| && |value| + 2 <= |tail| && tail[..|value|] == value
    requires tail[|value| + 2..] == rest
    ensures S.ReadFields(IStream(buf, true), map0) == S.ReadFields(IStream(rest, true), map0[name := value])
  {
    assert S.ReadFields(IStream(buf, true), map0)
        == S.ReadFields(Get(GetLine(IStream(tail, true), '\r', "").0), map0[name := value]);
    assert tail[|value| + 1..][1..] == rest;
  }

  lemma NameRead(name: string, tail: string)
    requires ':' !in name
    ensures var buf := name + ":" + tail;
      UpTo(buf, ':') == |name| < |buf| && buf[..|name|] == name && buf[|name| + 1..] == tail
  {
    UpToIs(name + ":" + tail, ':', |name|);
  }

  lemma ValueRead(value: string, rest: string)
    requires '\r' !in value
    ensures var buf := value + CRLF + rest;
      UpTo(buf, '\r') == |value| && |value| + 2 <= |buf| && buf[..|value|] == value && buf[|value| + 2..] == rest
  {
    UpToIs(value + CRLF + rest, '\r', |value|);
  }

  // A line with a colon of its own does not look at the name before it.
  lemma NameIsOwn(headers: seq<Header>, name: string, map0: Headers)
    requires forall i | 0 <= i < |headers| :: Printable(headers[i])
    ensures Fold(HeaderLines(headers), name, map0) == Fold(HeaderLines(headers), "", map0)
  {
    if headers != [] {
      HeaderLineParts(headers[0]);
    }
  }

  // ---- Server to client: a successful response ----

  function LengthHeader(size: nat): Header {
    Header("content-length", " " + ToDecimal(size))
  }

  lemma PrintWithOneHeader(code: nat, text: string, header: Header, body: string)
    ensures Print(code, text, [header], body) ==
              "HTTP/1.1 " + ToDecimal(code) + (" " + text) + CRLF
              + (header.name + ":" + header.value + CRLF + CRLF) + body
  {
    var line := header.name + ":" + header.value;
    var lines := HeaderLines([header]);
    assert lines == [line] && lines[1..] == [];
    assert Render(lines) == line + CRLF + "" == line + CRLF;
    Regroup("HTTP/1.1 " + ToDecimal(code) + (" " + text) + CRLF, line + CRLF, CRLF, body);
  }

  lemma Regroup(a: string, b: string, c: string, d: string)
    ensures a + b + c + d == a + (b + c) + d
  {}

  lemma ResourceText(s: S.Service, file: S.File)
    requires s == S.STARTED.(pending := None) && !file.present && file.opens
    ensures S.Send(S.Process(s, file)).responses == [Print(200, "OK", [LengthHeader(|file.bytes|)], file.bytes)]
  {
    var header := LengthHeader(|file.bytes|);
    PrintWithOneHeader(200, "OK", header, file.bytes);
    ThreeDigits(200);
    assert "HTTP/1.1 " + "200 OK" + "\r\n" == "HTTP/1.1 " + ToDecimal(200) + (" " + "OK") + CRLF;
    assert "" + "content-length" + ": " + ToDecimal(|file.bytes|) + "\r\n" == header.name + ":" + header.value + CRLF;
    assert file.bytes[..|file.bytes|] == file.bytes && (|file.bytes| == 0 ==> file.bytes == "");
  }

  // The bytes sent after the successful branch of ProcessRequest arrive as status 200 with a content-length
  // header whose number is the length of the body, and the body is the resource.
  lemma ResourceDelivered(e: Exchange, c: Conn, s: S.Service, file: S.File)
    requires Awaiting(e) && c.end == Eof && |file.bytes| < 0x1_0000_0000_0000_0000
    requires s == S.STARTED.(pending := None) && !file.present && file.opens
    requires Bytes(c) == S.Send(S.Process(s, file)).responses[0]
    ensures var r := Receive(e, c);
      && r.finishes == [Success] && |r.callbacks| == 1
      && r.callbacks[0].statusCode == 200 && r.callbacks[0].buf == file.bytes
      && r.callbacks[0].headers.Keys == {"content-length"}
      && Stoul(r.callbacks[0].headers["content-length"]) == Some(|file.bytes|)
  {
    var header := LengthHeader(|file.bytes|);
    ResourceText(s, file);
    DigitsAreToken(ToDecimal(|file.bytes|));
    StoulOfToDecimal(|file.bytes|);
    OneHeaderRoundTrip(e, c, 200, "OK", header, file.bytes);
  }

  lemma FoldOfOneHeader(header: Header)
    requires Printable(header)
    ensures AreLines(HeaderLines([header]))
    ensures Fold(HeaderLines([header]), "", map[]) == map[header.name := header.value]
  {
    var line := header.name + ":" + header.value;
    HeaderLineParts(header);
    assert HeaderLines([header]) == [line] && [line][1..] == [];
  }

  lemma OneHeaderRoundTrip(e: Exchange, c: Conn, code: nat, text: string, header: Header, body: string)
    requires Awaiting(e) && c.end == Eof && Bytes(c) == Print(code, text, [header], body)
    requires code < UINT32_RANGE && '\r' !in text && Printable(header)
    ensures var r := Receive(e, c);
      r.finishes == [Success] && r.callbacks == [Message(code, " " + text, map[header.name := header.value], body)]
  {
    FoldOfOneHeader(header);
    PrintedReceived(e, c, code, text, HeaderLines([header]), body);
  }

  // ---- Server to client: everything the service can send ----

  // The status line of the table is a code and a text; for 413 the code on the wire is 431.
  lemma StatusTextParts(status: nat) returns (code: string, message: string)
    requires status in S.STATUS_TABLE
    ensures ResponseParts(code, message, []) && S.STATUS_TABLE[status] == code + message
    ensures Stoul(code) == Some(if status == 413 then 431 else status)
  {
    var text := S.STATUS_TABLE[status];
    code, message := CodeAndText(text, if status == 413 then 431 else status);
  }

  lemma CodeAndText(text: string, number: nat) returns (code: string, message: string)
    requires 100 <= number < 1000 && |text| > 3 && text[3] == ' ' && '\r' !in text
    requires text[0] as int == '0' as int + number / 100 && text[1] as int == '0' as int + number / 10 % 10
    requires text[2] as int == '0' as int + number % 10
    ensures ResponseParts(code, message, []) && text == code + message && Stoul(code) == Some(number)
  {
    code, message := ToDecimal(number), text[3..];
    ThreeDigits(number);
    assert text[..3] == code;
    StoulOfToDecimal(number);
    DigitsAreToken(code);
  }

  lemma ThreeDigits(n: nat)
    requires 100 <= n < 1000
    ensures ToDecimal(n) ==
              [('0' as int + n / 100) as char, ('0' as int + n / 10 % 10) as char, ('0' as int + n % 10) as char]
  {
    assert ToDecimal(n / 100) == [('0' as int + n / 100) as char];
    assert ToDecimal(n / 10) == ToDecimal(n / 100) + [('0' as int + n / 10 % 10) as char];
  }

  // A response that HttpService sends without a header line is never delivered, whether it arrives
  // completely or in part.
  lemma BareErrorNotDelivered(e: Exchange, c: Conn, status: nat)
    requires Awaiting(e) && ValidConn(c) && status in S.STATUS_TABLE && Bytes(c) <= S.ErrorText(status)
    ensures Receive(e, c).callbacks == [] && Receive(e, c).finishes == [c.end]
  {
    var code, message := StatusTextParts(status);
    assert S.ErrorText(status) == "HTTP/1.1 " + code + message + CRLF + CRLF;
    NoHeaderLineNoCallback(e, c, code, message);
  }

  // The two classes as written never get through to each other: whatever the service receives, in whatever
  // pieces and with whatever errors, the client that reads what it sends never runs its callback.
  lemma NoRequestSucceeds(completions: seq<S.Completion>, e: Exchange, c: Conn)
    requires Awaiting(e) && ValidConn(c)
    requires var s := S.Run(S.STARTED, completions);
      Bytes(c) <= (if s.responses == [] then "" else s.responses[0])
    ensures Receive(e, c).callbacks == [] && Receive(e, c).finishes == [c.end]
  {
    S.HeadersNeverRead(S.STARTED, completions);
    var s := S.Run(S.STARTED, completions);
    if s.responses == [] {
      BareErrorNotDelivered(e, c, 501);
    } else {
      var status :| status in {413, 501, 505} && s.responses == [S.ErrorText(status)];
      BareErrorNotDelivered(e, c, status);
    }
  }
}
