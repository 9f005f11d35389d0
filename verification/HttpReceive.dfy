// The receiving half of HttpRequest against a byte stream that arrives in arbitrary pieces
// (005_http/http_request.cpp, lines 89-180), and the message grammar of section 3 of RFC 7230.
module HttpReceive {
  import opened Asio
  import opened Errors
  import opened HeaderLoop
  import opened HttpRequest
  import opened Streams
  import opened Wrappers

  predicate Reading(e: Exchange) {
    e.pending.Some? && (e.pending.value.ReadStatus? || e.pending.value.ReadHeaders? || e.pending.value.ReadBody?)
  }

  // The read operation in flight, run against the connection, and its handler.
  function ReadStep(e: Exchange, c: Conn): (Exchange, Conn)
    requires Reading(e)
  {
    var r :=
      match e.pending.value
      case ReadStatus => ReadUntil(e.response.buf, c, CRLF, None)
      case ReadHeaders => ReadUntil(e.response.buf, c, BLANK_LINE, None)
      case _ => ReadAll(e.response.buf, c);
    (Complete(e, r.ec, r.buf), r.conn)
  }

  function ReadsLeft(e: Exchange): nat {
    if !Reading(e) then 0
    else match e.pending.value case ReadStatus => 3 case ReadHeaders => 2 case _ => 1
  }

  // All the reads that are left, one after the other.
  function Receive(e: Exchange, c: Conn): Exchange
    decreases ReadsLeft(e)
  {
    if Reading(e) then
      var (e1, c1) := ReadStep(e, c);
      Receive(e1, c1)
    else e
  }

  // A request that has been sent and not cancelled.
  predicate Awaiting(e: Exchange) {
    && e.pending == Some(ReadStatus) && !e.cancelled && !e.hung
    && e.response.buf == "" && e.response.headers == map[] && e.finishes == [] && e.callbacks == []
  }

  // A prefix of the stream in which the delimiter occurs reaches past its first occurrence.
  lemma ReachesPast(p: string, head: string, delim: string, tail: string)
    requires delim != "" && p <= head + delim + tail && Find(p, delim) >= 0
    requires forall j | 0 <= j < |head| :: !Occurs(head + delim + tail, delim, j)
    ensures |head + delim| <= |p| && p == head + delim + p[|head + delim|..]
  {
    var all := head + delim + tail;
    OccursInPrefix(p, all, delim, Find(p, delim));
    assert all[..|head + delim|] == head + delim;
    assert p == all[..|p|];
  }

  // async_read_until stops after the first delimiter; the surplus and the bytes still to come make up
  // what follows it.
  lemma ReadReaches(buf: string, c: Conn, head: string, delim: string, tail: string) returns (surplus: string)
    requires ValidConn(c) && delim != "" && buf + Bytes(c) == head + delim + tail
    requires forall j | 0 <= j < |head| :: !Occurs(head + delim + tail, delim, j)
    ensures var r := ReadUntil(buf, c, delim, None);
      && r.ec == Success && r.buf == head + delim + surplus
      && surplus + Bytes(r.conn) == tail && r.conn.end == c.end
  {
    var all := head + delim + tail;
    assert Occurs(all, delim, |head|);
    ReadUntilOutcome(buf, c, delim, None);
    var r := ReadUntil(buf, c, delim, None);
    PrefixOf(r.buf, Bytes(r.conn), all);
    ReachesPast(r.buf, head, delim, tail);
    surplus := r.buf[|head + delim|..];
    CancelPrefix(head + delim, surplus, Bytes(r.conn), tail);
  }

  lemma PrefixOf(a: string, b: string, all: string)
    requires a + b == all
    ensures a <= all
  {}

  lemma CancelPrefix(done: string, a: string, b: string, c: string)
    requires (done + a) + b == done + c
    ensures a + b == c
  {
    assert (done + a) + b == done + (a + b);
    assert a + b == (done + (a + b))[|done|..];
    assert c == (done + c)[|done|..];
  }

  // Without a CR there is no line end.
  lemma NoEarlyCrlf(line: string, rest: string, j: nat)
    requires '\r' !in line && j < |line|
    ensures !Occurs(line + CRLF + rest, CRLF, j)
  {
    var s := line + CRLF + rest;
    assert s[j] == line[j];
    CrlfAt(s, j);
  }

  // The first blank line of a block of header lines is the one that ends it.
  lemma {:induction false} NoEarlyBlank(lines: seq<string>, body: string, j: nat)
    requires AreLines(lines) && j + 2 < |Render(lines)|
    ensures !Occurs(Render(lines) + CRLF + body, BLANK_LINE, j)
    decreases |lines|
  {
    var s := Render(lines) + CRLF + body;
    var line := lines[0];
    var tail := Render(lines[1..]) + CRLF + body;
    assert s == line + CRLF + tail;
    BlankAt(s, j);
    CrlfAt(s, j);
    CrlfAt(s, j + 2);
    if j < |line| {
      assert s[j] == line[j];
    } else if j == |line| {
      assert s[j + 2] == tail[0] == lines[1][0];
    } else if j == |line| + 1 {
      assert s[j] == '\n';
    } else {
      var k := j - |line| - 2;
      assert tail == s[|line| + 2..];
      assert tail[k..k + 4] == s[j..j + 4];
      NoEarlyBlank(lines[1..], body, k);
    }
  }

  // ---- The reads, for any bytes ----

  // The first read, and its handler on the first line and whatever has arrived behind it.
  lemma LineArrives(e: Exchange, c: Conn) returns (surplus: string)
    requires Awaiting(e) && ValidConn(c) && Find(Bytes(c), CRLF) >= 0
    ensures var w := Bytes(c);
      var i, (e1, c1) := Find(w, CRLF) + 2, ReadStep(e, c);
      && e1 == OnStatusLine(e.(pending := None, response := e.response.(buf := w[..i] + surplus)))
      && surplus + Bytes(c1) == w[i..] && c1.end == c.end
  {
    var w := Bytes(c);
    var i := Find(w, CRLF);
    assert w == w[..i] + CRLF + w[i + 2..] by {
      assert w[i..i + 2] == CRLF;
    }
    assert w[..i + 2] == w[..i] + CRLF;
    assert "" + w == w;
    surplus := ReadReaches("", c, w[..i], CRLF, w[i + 2..]);
  }

  // Without a line end in the stream it is the stream's end that is reported.
  lemma NoLineArrives(e: Exchange, c: Conn)
    requires Awaiting(e) && ValidConn(c) && Find(Bytes(c), CRLF) < 0
    ensures var r := Receive(e, c); r.finishes == [c.end] && r.callbacks == [] && !r.hung
  {
    ReadUntilOutcome("", c, CRLF, None);
    assert "" + Bytes(c) == Bytes(c);
    var (e1, c1) := ReadStep(e, c);
    assert Receive(e, c) == Receive(e1, c1) == e1;
  }

  // The second read, likewise.
  lemma HeadersArrive(e: Exchange, c: Conn) returns (surplus: string)
    requires e.pending == Some(ReadHeaders) && !e.cancelled && ValidConn(c)
    requires Find(e.response.buf + Bytes(c), BLANK_LINE) >= 0
    ensures var all := e.response.buf + Bytes(c);
      var b, (e1, c1) := Find(all, BLANK_LINE) + 4, ReadStep(e, c);
      && e1 == OnHeaders(e.(pending := None, response := e.response.(buf := all[..b] + surplus)))
      && surplus + Bytes(c1) == all[b..] && c1.end == c.end
  {
    var all := e.response.buf + Bytes(c);
    var b := Find(all, BLANK_LINE);
    assert all == all[..b] + BLANK_LINE + all[b + 4..] by {
      assert all[b..b + 4] == BLANK_LINE;
    }
    assert all[..b + 4] == all[..b] + BLANK_LINE;
    surplus := ReadReaches(e.response.buf, c, all[..b], BLANK_LINE, all[b + 4..]);
  }

  lemma NoBlankArrives(e: Exchange, c: Conn)
    requires e.pending == Some(ReadHeaders) && ValidConn(c) && e.finishes == [] && e.callbacks == []
    requires Find(e.response.buf + Bytes(c), BLANK_LINE) < 0
    ensures var r := Receive(e, c); r.finishes == [c.end] && r.callbacks == [] && r.hung == e.hung
  {
    ReadUntilOutcome(e.response.buf, c, BLANK_LINE, None);
    var (e1, c1) := ReadStep(e, c);
    assert Receive(e, c) == Receive(e1, c1) == e1;
  }

  // ---- The message grammar ----

  // "HTTP/1.1 code text" CRLF, header lines, a blank line and the body.
  function ResponseText(code: string, message: string, lines: seq<string>, body: string): string {
    "HTTP/1.1 " + code + message + CRLF + Render(lines) + CRLF + body
  }

  lemma ResponseTextSplits(code: string, message: string, lines: seq<string>, body: string)
    ensures ResponseText(code, message, lines, body)
         == "HTTP/1.1 " + code + message + CRLF + (Render(lines) + CRLF + body)
  {}

  predicate ResponseParts(code: string, message: string, lines: seq<string>) {
    && code != "" && SpaceFree(code)
    && '\r' !in message && (message != "" ==> IsSpace(message[0]))
    && AreLines(lines)
  }

  // The first read and its handler: whatever the pieces, what follows the status line stays to be read.
  lemma StatusRead(e: Exchange, c: Conn, code: string, message: string, rest: string)
    requires Awaiting(e) && ValidConn(c) && ResponseParts(code, message, [])
    requires Bytes(c) == "HTTP/1.1 " + code + message + CRLF + rest
    ensures var (e1, c1) := ReadStep(e, c);
      match Stoul(code)
      case None => e1.pending == None && e1.finishes == [InvalidResponse] && e1.callbacks == []
      case Some(number) =>
        && e1.pending == Some(ReadHeaders) && !e1.cancelled && e1.finishes == [] && e1.callbacks == []
        && e1.response == Message(ToUint32(number), message, map[], e1.response.buf)
        && e1.response.buf + Bytes(c1) == rest && c1.end == c.end
  {
    var line := "HTTP/1.1 " + code + message;
    assert forall i | 0 <= i < |code| :: !IsSpace(code[i]);
    FirstLineIs(Bytes(c), line, rest);
    var surplus := LineArrives(e, c);
    StatusLineParses(code, message, surplus);
  }

  lemma FirstLineIs(w: string, line: string, rest: string)
    requires w == line + CRLF + rest && '\r' !in line
    ensures Find(w, CRLF) == |line| && w[..|line| + 2] == line + CRLF && w[|line| + 2..] == rest
  {
    forall j | 0 <= j < |line| ensures !Occurs(w, CRLF, j) {
      NoEarlyCrlf(line, rest, j);
    }
    FindIs(w, CRLF, |line|);
  }

  // The second read and its handler.
  lemma HeadersRead(e: Exchange, c: Conn, lines: seq<string>, body: string)
    requires e.pending == Some(ReadHeaders) && !e.cancelled && ValidConn(c) && AreLines(lines) && lines != []
    requires e.response.buf + Bytes(c) == Render(lines) + CRLF + body
    ensures var (e1, c1) := ReadStep(e, c);
      && e1 == e.(pending := Some(ReadBody), passed := e.passed + [ReadHeaders],
                  response := e.response.(headers := Fold(lines, "", e.response.headers), buf := e1.response.buf))
      && e1.response.buf + Bytes(c1) == body && c1.end == c.end
  {
    BlankLineIs(lines, body);
    var surplus := HeadersArrive(e, c);
    LoopFoldsLines(lines, surplus, "", e.response.headers);
  }

  lemma BlankLineIs(lines: seq<string>, body: string)
    requires AreLines(lines) && lines != []
    ensures var block, all := Render(lines), Render(lines) + CRLF + body;
      Find(all, BLANK_LINE) == |block| - 2 && all[..|block| + 2] == block + CRLF && all[|block| + 2..] == body
  {
    var block, all := Render(lines), Render(lines) + CRLF + body;
    RenderEnds(lines);
    assert all[|block| - 2..|block| + 2] == block[|block| - 2..] + CRLF == BLANK_LINE;
    forall j | 0 <= j < |block| - 2 ensures !Occurs(all, BLANK_LINE, j) {
      NoEarlyBlank(lines, body, j);
    }
    FindIs(all, BLANK_LINE, |block| - 2);
  }

  lemma {:induction false} RenderEnds(lines: seq<string>)
    requires lines != []
    ensures |Render(lines)| >= 2 && Render(lines)[|Render(lines)| - 2..] == CRLF
    decreases |lines|
  {
    if |lines| > 1 {
      RenderEnds(lines[1..]);
    }
  }

  // Every response with a status line and at least one header line is received as what it says, in
  // whatever pieces it arrives.
  lemma ResponseReceived(e: Exchange, c: Conn, code: string, message: string, lines: seq<string>, body: string)
    requires Awaiting(e) && ValidConn(c) && ResponseParts(code, message, lines) && lines != []
    requires Bytes(c) == ResponseText(code, message, lines, body)
    ensures var r := Receive(e, c);
      match Stoul(code)
      case None => r.finishes == [InvalidResponse] && r.callbacks == []
      case Some(number) =>
        if c.end == Eof then
          r.finishes == [Success]
          && r.callbacks == [Message(ToUint32(number), message, Fold(lines, "", map[]), body)]
        else r.finishes == [c.end] && r.callbacks == []
  {
    ResponseTextSplits(code, message, lines, body);
    StatusRead(e, c, code, message, Render(lines) + CRLF + body);
    if Stoul(code).Some? {
      var (e1, c1) := ReadStep(e, c);
      HeadersRead(e1, c1, lines, body);
      var (e2, c2) := ReadStep(e1, c1);
      var (e3, c3) := ReadStep(e2, c2);
      assert Receive(e, c) == Receive(e1, c1) == Receive(e2, c2) == Receive(e3, c3) == e3;
    }
  }

  // The C++ object driven by the connection: the io_service runs the read in flight and then its handler.
  method RunRead(request: HttpRequest, c: Conn) returns (c': Conn)
    requires Reading(request.View())
    modifies request, request.response
    ensures (request.View(), c') == ReadStep(old(request.View()), c)
  {
    var stage := request.pending.value;
    var r: ReadResult;
    if stage == ReadStatus {
      r := ReadUntil(request.response.buf, c, CRLF, None);
      request.OnStatusLineReceived(r.ec, r.buf);
    } else if stage == ReadHeaders {
      r := ReadUntil(request.response.buf, c, BLANK_LINE, None);
      request.OnHeadersReceived(r.ec, r.buf);
    } else {
      r := ReadAll(request.response.buf, c);
      request.OnResponseBodyReceived(r.ec, r.buf);
    }
    c' := r.conn;
  }

  lemma ReceiveStep(e: Exchange, c: Conn)
    requires Reading(e)
    ensures var (e1, c1) := ReadStep(e, c);
      Receive(e, c) == Receive(e1, c1) && ReadsLeft(e1) < ReadsLeft(e)
  {}

  // It does so until no operation is in flight any more.
  method RunReads(request: HttpRequest, c: Conn)
    modifies request, request.response
    ensures request.View() == Receive(old(request.View()), c)
  {
    var conn := c;
    while Reading(request.View())
      invariant Receive(request.View(), conn) == Receive(old(request.View()), c)
      decreases ReadsLeft(request.View())
    {
      ReceiveStep(request.View(), conn);
      conn := RunRead(request, conn);
    }
  }
}
