// Exactly which byte streams are received in the same way however they are cut into pieces
// (005_http/http_request.cpp, lines 94-170).
module HttpCuts {
  import opened Asio
  import opened Errors
  import opened HeaderLoop
  import opened HttpFirstLine
  import opened HttpReceive
  import opened HttpRequest
  import opened HttpSegmentation
  import opened Streams
  import opened Wrappers

  // How a stream can end: the peer closes the connection, or a read fails with an error of the system, which
  // is never one that a full buffer or HttpRequest itself reports.
  predicate StreamEnd(end: ErrorCode) {
    end != Success && end != NotFound && end != InvalidResponse
  }

  // A peer that sends w, in some pieces, until the stream ends.
  predicate CutOf(c: Conn, w: string, end: ErrorCode) {
    Bytes(c) == w && c.end == end
  }

  predicate SameOutcome(r1: Exchange, r2: Exchange) {
    r1.finishes == r2.finishes && r1.callbacks == r2.callbacks && r1.hung == r2.hung
  }

  // What the request e makes of each connection. The trigger keeps the long definition of Receive out of the
  // proofs that do not need it.
  ghost predicate Receives(e: Exchange, ends: Conn -> Exchange) {
    Awaiting(e) && forall c {:trigger Receive(e, c)} :: ends(c) == Receive(e, c)
  }

  // All ways of cutting w lead to the same outcome.
  ghost predicate CutsAgree(ends: Conn -> Exchange, w: string, end: ErrorCode) {
    forall c1, c2 | CutOf(c1, w, end) && CutOf(c2, w, end) :: SameOutcome(ends(c1), ends(c2))
  }

  // ---- The condition on the bytes ----

  // What is left behind the status line, which is parsed from the first line alone.
  function AfterStatus(w: string): string
    requires Find(w, CRLF) >= 0
  {
    ParseStatusLine(w[..LineEnd(w)]).rest + w[LineEnd(w)..]
  }

  // No blank line follows, or the header loop meets an empty segment by the first blank line, or nothing
  // follows that; or the stream fails, so that nothing is delivered, and a CR follows, at which the loop stops.
  predicate HeadersDecided(t: string, end: ErrorCode) {
    var b := Find(t, BLANK_LINE) + 4;
    b < 4 || Closes(t[..b]) || b == |t| || (end != Eof && t[b] == '\r')
  }

  // There is no first line; or it is bad, and has its two words or the first two words of the stream are not the
  // version and the start of a number; or it is good and the bytes behind it decide where the headers end.
  predicate Independent(w: string, end: ErrorCode) {
    Find(w, CRLF) < 0
    || (if GoodFirstLine(w) then HeadersDecided(AfterStatus(w), end)
        else !WordsMissing(w[..LineEnd(w)]) || !LateStatus(w))
  }

  // ---- What each cut leads to ----

  // The header loop has run on buf, and y has arrived later.
  predicate Delivers(r: Exchange, end: ErrorCode, code: nat, message: string, buf: string, y: string) {
    match Scan(buf, "", map[])
    case Hangs(_) => r.hung && r.finishes == [] && r.callbacks == []
    case Stops(headers, rest) =>
      && !r.hung && r.finishes == [if end == Eof then Success else end]
      && r.callbacks == if end == Eof then [Message(code, message, headers, rest + y)] else []
  }

  // A stream split behind a first line that is good by itself: what stays of the line behind its status, and
  // the parse is the same whatever has arrived with it.
  datatype Head = Head(line: string, code: nat, message: string, rest: string, tail: string)

  ghost predicate GoodHead(w: string, d: Head) {
    && w == d.line + d.tail && 0 <= Find(w, CRLF) == |d.line| - 2
    && |d.rest| <= |d.line| && d.rest == d.line[|d.line| - |d.rest|..]
    && forall more {:trigger ParseStatusLine(d.line + more)} ::
         ParseStatusLine(d.line + more) == GoodStatus(d.code, d.message, d.rest + more)
  }

  lemma StatusLineIsDecided(line: string, p: StatusLine)
    requires EndsLine(line) && ParseStatusLine(line) == p && p.GoodStatus?
    ensures |p.rest| <= |line| && p.rest == line[|line| - |p.rest|..]
    ensures forall more {:trigger ParseStatusLine(line + more)} ::
              ParseStatusLine(line + more) == GoodStatus(p.code, p.message, p.rest + more)
  {
    StatusLineExtends(line, "");
    forall more: string ensures ParseStatusLine(line + more) == GoodStatus(p.code, p.message, p.rest + more) {
      StatusLineExtends(line, more);
    }
  }

  lemma LineEnds(w: string, line: string, tail: string)
    requires w == line + tail && 0 <= Find(w, CRLF) == |line| - 2
    ensures EndsLine(line)
  {
    CrlfAt(w, |line| - 2);
  }

  lemma HeadIs(w: string, d: Head)
    requires w == d.line + d.tail && 0 <= Find(w, CRLF) == |d.line| - 2
    requires ParseStatusLine(d.line) == GoodStatus(d.code, d.message, d.rest)
    ensures GoodHead(w, d)
  {
    LineEnds(w, d.line, d.tail);
    StatusLineIsDecided(d.line, GoodStatus(d.code, d.message, d.rest));
  }

  function HeadOf(w: string): Head
    requires Find(w, CRLF) >= 0
  {
    var line, tail := w[..LineEnd(w)], w[LineEnd(w)..];
    match ParseStatusLine(line)
    case GoodStatus(code, message, rest) => Head(line, code, message, rest, tail)
    case BadStatus(rest) => Head(line, 0, "", rest, tail)
  }

  predicate AwaitsHeaders(e: Exchange) {
    && e.pending == Some(ReadHeaders) && !e.cancelled && !e.hung && e.response.headers == map[]
    && e.finishes == [] && e.callbacks == []
  }

  // Where the second read starts.
  predicate Continues(e: Exchange, d: Head) {
    AwaitsHeaders(e) && e.response.statusCode == d.code && e.response.statusMessage == d.message
  }

  // The handler of the first read, on the first line and what has arrived behind it.
  lemma GoodStatusLine(e: Exchange, w: string, d: Head, more: string)
    requires GoodHead(w, d) && e.response.buf == d.line + more
    ensures var response := e.response.(statusCode := d.code, statusMessage := d.message, buf := d.rest + more);
      OnStatusLine(e) == Begin(Pass(e.(response := response), ReadStatus), ReadHeaders)
  {
    assert ParseStatusLine(d.line + more) == GoodStatus(d.code, d.message, d.rest + more);
  }

  lemma GoodLine(e: Exchange, c: Conn, d: Head) returns (e1: Exchange, c1: Conn)
    requires Awaiting(e) && StreamEnd(c.end) && GoodHead(Bytes(c), d)
    ensures Continues(e1, d) && e1.response.buf + Bytes(c1) == d.rest + d.tail && c1.end == c.end
    ensures Receive(e, c) == Receive(e1, c1)
  {
    var surplus := LineArrives(e, c);
    var w := Bytes(c);
    assert w[..|d.line|] == d.line && w[|d.line|..] == d.tail;
    GoodStatusLine(e.(pending := None, response := e.response.(buf := d.line + surplus)), w, d, surplus);
    var step := ReadStep(e, c);
    e1, c1 := step.0, step.1;
    Regroup(d.rest, surplus, Bytes(c1), d.tail);
  }

  lemma Regroup(a: string, b: string, c: string, d: string)
    requires b + c == d
    ensures (a + b) + c == a + d
  {}

  lemma BodyFollows(e: Exchange, c: Conn, buf: string, c1: Conn)
    requires AwaitsHeaders(e) && StreamEnd(c1.end)
    requires ReadStep(e, c) == (OnHeaders(e.(pending := None, response := e.response.(buf := buf))), c1)
    ensures Delivers(Receive(e, c), c1.end, e.response.statusCode, e.response.statusMessage, buf, Bytes(c1))
  {
    var e1 := ReadStep(e, c).0;
    assert Receive(e, c) == Receive(e1, c1);
    if Scan(buf, "", map[]).Stops? {
      var (e2, c2) := ReadStep(e1, c1);
      assert Receive(e1, c1) == Receive(e2, c2) == e2;
    }
  }

  // t is a header block h, which ends with the first blank line, and what follows.
  predicate SplitsAtBlank(t: string, h: string, body: string) {
    t == h + body && 0 <= Find(t, BLANK_LINE) == |h| - 4
  }

  predicate BodyDecided(h: string, body: string, end: ErrorCode) {
    Closes(h) || body == "" || (end != Eof && body[0] == '\r')
  }

  lemma SplitAtBlank(t: string) returns (h: string, body: string)
    requires Find(t, BLANK_LINE) >= 0
    ensures SplitsAtBlank(t, h, body)
    ensures forall end :: HeadersDecided(t, end) <==> BodyDecided(h, body, end)
  {
    var b := Find(t, BLANK_LINE) + 4;
    h, body := t[..b], t[b..];
  }

  // The second and third reads: x has arrived with the header block, y later.
  lemma HeadersRun(e: Exchange, c: Conn, d: Head, h: string, body: string) returns (x: string, y: string)
    requires Continues(e, d) && StreamEnd(c.end) && SplitsAtBlank(e.response.buf + Bytes(c), h, body)
    ensures x + y == body && Delivers(Receive(e, c), c.end, d.code, d.message, h + x, y)
  {
    var t := e.response.buf + Bytes(c);
    assert t[..|h|] == h && t[|h|..] == body;
    x := HeadersArrive(e, c);
    var c1 := ReadStep(e, c).1;
    y := Bytes(c1);
    BodyFollows(e, c, h + x, c1);
  }

  // The whole run: without a line end, on a bad status, and on a good one without and with a blank line.
  lemma NoLineRun(e: Exchange, ends: Conn -> Exchange, c: Conn)
    requires Receives(e, ends) && StreamEnd(c.end) && Find(Bytes(c), CRLF) < 0
    ensures var r := ends(c); r.finishes == [c.end] && r.callbacks == [] && !r.hung
  {
    NoLineArrives(e, c);
  }

  ghost predicate BadLine(line: string, tail: string) {
    forall more {:trigger ParseStatusLine(line + more)} | more <= tail :: ParseStatusLine(line + more).BadStatus?
  }

  lemma BadLineIs(w: string, line: string, tail: string)
    requires w == line + tail && 0 <= Find(w, CRLF) == |line| - 2 && BadThroughout(w)
    ensures BadLine(line, tail)
  {
    forall more: string | more <= tail ensures ParseStatusLine(line + more).BadStatus? {
      assert w[..|line| + |more|] == line + more;
    }
  }

  lemma BadRead(e: Exchange, c: Conn, line: string, tail: string) returns (e1: Exchange, c1: Conn)
    requires Awaiting(e) && StreamEnd(c.end) && BadLine(line, tail)
    requires Bytes(c) == line + tail && 0 <= Find(Bytes(c), CRLF) == |line| - 2
    ensures e1.pending == None && e1.finishes == [InvalidResponse] && e1.callbacks == [] && !e1.hung
    ensures Receive(e, c) == Receive(e1, c1)
  {
    var surplus := LineArrives(e, c);
    var step := ReadStep(e, c);
    e1, c1 := step.0, step.1;
    var w := Bytes(c);
    assert w[..|line|] == line && w[|line|..] == tail;
    assert surplus <= tail;
    BadStatusLine(e.(pending := None, response := e.response.(buf := line + surplus)));
  }

  lemma BadRun(e: Exchange, ends: Conn -> Exchange, c: Conn)
    requires Receives(e, ends) && StreamEnd(c.end) && Find(Bytes(c), CRLF) >= 0 && BadThroughout(Bytes(c))
    ensures var r := ends(c); r.finishes == [InvalidResponse] && r.callbacks == [] && !r.hung
  {
    var w := Bytes(c);
    var line, tail := w[..LineEnd(w)], w[LineEnd(w)..];
    BadLineIs(w, line, tail);
    var e1, c1 := BadRead(e, c, line, tail);
  }

  lemma BadStatusLine(e: Exchange)
    requires ParseStatusLine(e.response.buf).BadStatus?
    ensures var r := OnStatusLine(e);
      && r.finishes == e.finishes + [InvalidResponse] && r.callbacks == e.callbacks && r.hung == e.hung
      && r.pending == e.pending
  {}

  lemma NoBlankRun(e: Exchange, ends: Conn -> Exchange, c: Conn, d: Head)
    requires Receives(e, ends) && StreamEnd(c.end) && GoodHead(Bytes(c), d) && Find(d.rest + d.tail, BLANK_LINE) < 0
    ensures var r := ends(c); r.finishes == [c.end] && r.callbacks == [] && !r.hung
  {
    var e1, c1 := GoodLine(e, c, d);
    NoBlankArrives(e1, c1);
  }

  lemma GoodRun(e: Exchange, ends: Conn -> Exchange, c: Conn, d: Head, h: string, body: string)
    returns (x: string, y: string)
    requires Receives(e, ends) && StreamEnd(c.end) && GoodHead(Bytes(c), d) && SplitsAtBlank(d.rest + d.tail, h, body)
    ensures x + y == body && Delivers(ends(c), c.end, d.code, d.message, h + x, y)
  {
    var e1, c1 := GoodLine(e, c, d);
    x, y := HeadersRun(e1, c1, d, h, body);
  }

  // ---- Independent streams are received alike ----

  lemma BlockEnds(t: string, h: string, body: string)
    requires SplitsAtBlank(t, h, body)
    ensures h[|h| - 2] == '\r' && h[|h| - 1] == '\n' && h[|h| - 3] == '\n'
  {
    var i := Find(t, BLANK_LINE);
    BlankAt(t, i);
    CrlfAt(t, i);
    CrlfAt(t, i + 2);
  }

  // After an empty segment it makes no difference what has arrived already.
  lemma ClosedDelivers(r: Exchange, end: ErrorCode, code: nat, message: string, h: string, s: Result, x: string,
                       y: string)
    requires s.Stops? && Scan(h + x, "", map[]) == Stops(s.headers, s.rest + x)
    requires Delivers(r, end, code, message, h + x, y)
    ensures !r.hung && r.finishes == [if end == Eof then Success else end]
    ensures r.callbacks == if end == Eof then [Message(code, message, s.headers, s.rest + (x + y))] else []
  {
    assert (s.rest + x) + y == s.rest + (x + y);
  }

  lemma ClosedAgrees(r1: Exchange, r2: Exchange, end: ErrorCode, code: nat, message: string, h: string,
                     x1: string, y1: string, x2: string, y2: string)
    requires h != "" && h[|h| - 1] == '\n' && Closes(h) && x1 + y1 == x2 + y2
    requires Delivers(r1, end, code, message, h + x1, y1) && Delivers(r2, end, code, message, h + x2, y2)
    ensures SameOutcome(r1, r2)
  {
    var s := Scan(h, "", map[]);
    ClosedScan(h, x1, "", map[]);
    ClosedScan(h, x2, "", map[]);
    ClosedDelivers(r1, end, code, message, h, s, x1, y1);
    ClosedDelivers(r2, end, code, message, h, s, x2, y2);
  }

  // Without one it makes none to a stream that fails if the loop stops at once on what has arrived behind.
  lemma FailedDelivers(r: Exchange, end: ErrorCode, code: nat, message: string, h: string, x: string, y: string)
    requires |h| > 2 && h[|h| - 2] == '\r' && h[|h| - 1] == '\n' && h[|h| - 3] == '\n' && !Closes(h)
    requires end != Eof && (x != "" ==> x[0] == '\r') && Delivers(r, end, code, message, h + x, y)
    ensures !r.hung && r.finishes == [end] && r.callbacks == []
  {
    BlankLineEndsWalk(h);
    ExhaustedScan(h, x, "", map[]);
    var (name, headers) := Walked(h, "", map[]);
    assert Scan(x, name, headers).Stops? by {
      if x != "" {
        UpToIs(x, '\r', 0);
      }
    }
  }

  lemma BlankAgrees(e: Exchange, ends: Conn -> Exchange, w: string, c1: Conn, c2: Conn, d: Head, h: string,
                    body: string)
    requires Receives(e, ends) && CutOf(c1, w, c1.end) && CutOf(c2, w, c1.end) && StreamEnd(c1.end) && GoodHead(w, d)
    requires SplitsAtBlank(d.rest + d.tail, h, body) && BodyDecided(h, body, c1.end)
    ensures SameOutcome(ends(c1), ends(c2))
  {
    var x1, y1 := GoodRun(e, ends, c1, d, h, body);
    var x2, y2 := GoodRun(e, ends, c2, d, h, body);
    BlockEnds(d.rest + d.tail, h, body);
    if Closes(h) {
      ClosedAgrees(ends(c1), ends(c2), c1.end, d.code, d.message, h, x1, y1, x2, y2);
    } else if body != "" {
      assert x1 != "" ==> x1[0] == (x1 + y1)[0];
      assert x2 != "" ==> x2[0] == (x2 + y2)[0];
      FailedDelivers(ends(c1), c1.end, d.code, d.message, h, x1, y1);
      FailedDelivers(ends(c2), c1.end, d.code, d.message, h, x2, y2);
    }
  }

  lemma GoodHeadAgrees(e: Exchange, ends: Conn -> Exchange, w: string, c1: Conn, c2: Conn, d: Head)
    requires Receives(e, ends) && CutOf(c1, w, c1.end) && CutOf(c2, w, c1.end) && StreamEnd(c1.end) && GoodHead(w, d)
    requires HeadersDecided(d.rest + d.tail, c1.end)
    ensures SameOutcome(ends(c1), ends(c2))
  {
    if Find(d.rest + d.tail, BLANK_LINE) < 0 {
      NoBlankRun(e, ends, c1, d);
      NoBlankRun(e, ends, c2, d);
    } else {
      var h, body := SplitAtBlank(d.rest + d.tail);
      BlankAgrees(e, ends, w, c1, c2, d, h, body);
    }
  }

  lemma GoodAgrees(e: Exchange, ends: Conn -> Exchange, w: string, t: string, c1: Conn, c2: Conn)
    requires Receives(e, ends) && CutOf(c1, w, c1.end) && CutOf(c2, w, c1.end) && StreamEnd(c1.end)
    requires Find(w, CRLF) >= 0 && GoodFirstLine(w) && t == AfterStatus(w) && HeadersDecided(t, c1.end)
    ensures SameOutcome(ends(c1), ends(c2))
  {
    var d := HeadOf(w);
    HeadIs(w, d);
    assert d.rest + d.tail == t;
    GoodHeadAgrees(e, ends, w, c1, c2, d);
  }

  lemma IndependentAgrees(e: Exchange, ends: Conn -> Exchange, w: string, c1: Conn, c2: Conn)
    requires Receives(e, ends) && CutOf(c1, w, c1.end) && CutOf(c2, w, c1.end) && StreamEnd(c1.end)
    requires Independent(w, c1.end)
    ensures SameOutcome(ends(c1), ends(c2))
  {
    if Find(w, CRLF) < 0 {
      NoLineRun(e, ends, c1);
      NoLineRun(e, ends, c2);
    } else if !GoodFirstLine(w) {
      BadThroughoutIff(w);
      BadRun(e, ends, c1);
      BadRun(e, ends, c2);
    } else {
      GoodAgrees(e, ends, w, AfterStatus(w), c1, c2);
    }
  }

  // ---- The others are not ----

  // Two pieces, the first of which holds the first line: the first read takes just that piece.
  lemma TwoPieces(e: Exchange, w: string, end: ErrorCode, k: nat) returns (c: Conn)
    requires Awaiting(e) && Find(w, CRLF) >= 0 && LineEnd(w) <= k <= |w|
    ensures CutOf(c, w, end)
    ensures ReadStep(e, c) ==
              (OnStatusLine(e.(pending := None, response := e.response.(buf := w[..k]))), Conn([w[k..]], end))
  {
    var p, q := w[..k], w[k..];
    c := Conn([p, q], end);
    assert w == p + q && "" + p == p;
    assert [p, q][1..] == [q];
    OnePiece(q, end);
    OccursInFront(w, CRLF, Find(w, CRLF), k);
    FindHas(p, CRLF, Find(w, CRLF));
    assert Find("", CRLF) < 0;
    assert ReadUntil("", c, CRLF, None) == ReadUntil(p, Conn([q], end), CRLF, None);
  }

  lemma OnePiece(q: string, end: ErrorCode)
    ensures Bytes(Conn([q], end)) == q
  {
    assert [q][1..] == [];
    assert Flatten([q]) == q + "" == q;
  }

  // Cut behind a good first line and more of the stream: the second read starts with what the first piece
  // has left.
  lemma GoodFirstPiece(e: Exchange, d: Head, end: ErrorCode, more: string, q: string) returns (c: Conn, e1: Exchange)
    requires Awaiting(e) && GoodHead(d.line + d.tail, d) && d.tail == more + q
    ensures CutOf(c, d.line + d.tail, end)
    ensures Continues(e1, d) && e1.response.buf == d.rest + more && Receive(e, c) == Receive(e1, Conn([q], end))
  {
    var w := d.line + d.tail;
    var p := d.line + more;
    assert w == p + q && w[..|p|] == p && w[|p|..] == q;
    c := TwoPieces(e, w, end, |p|);
    GoodStatusLine(e.(pending := None, response := e.response.(buf := p)), w, d, more);
    e1 := ReadStep(e, c).0;
  }

  // If a blank line is in the first piece too, the header loop runs on just what that piece holds.
  lemma BufferedPiece(e: Exchange, ends: Conn -> Exchange, d: Head, end: ErrorCode, more: string, q: string)
    returns (c: Conn)
    requires Receives(e, ends) && StreamEnd(end) && GoodHead(d.line + d.tail, d) && d.tail == more + q
    requires Find(d.rest + more, BLANK_LINE) >= 0
    ensures CutOf(c, d.line + d.tail, end) && Delivers(ends(c), end, d.code, d.message, d.rest + more, q)
  {
    var e1;
    c, e1 := GoodFirstPiece(e, d, end, more, q);
    OnePiece(q, end);
    BodyFollows(e1, Conn([q], end), e1.response.buf, Conn([q], end));
  }

  // The blank line ends behind the first line.
  lemma BlankLineIsLater(w: string, d: Head)
    requires GoodHead(w, d) && Find(d.rest + d.tail, BLANK_LINE) >= 0
    ensures |d.rest| < Find(d.rest + d.tail, BLANK_LINE) + 4
  {
    var t := d.rest + d.tail;
    var j := Find(t, BLANK_LINE);
    BlankAt(t, j);
    if j + 4 <= |d.rest| {
      CrlfInside(d.line, d.rest, d.tail, j);
    }
  }

  lemma CrlfInside(line: string, rest: string, tail: string, j: nat)
    requires |rest| <= |line| && rest == line[|line| - |rest|..]
    requires j + 2 <= |rest| && Occurs(rest + tail, CRLF, j)
    ensures Occurs(line + tail, CRLF, |line| - |rest| + j)
  {
    var t, w := rest + tail, line + tail;
    var i := |line| - |rest| + j;
    CrlfAt(t, j);
    CrlfAt(w, i);
    assert t[j] == rest[j] == w[i] && t[j + 1] == rest[j + 1] == w[i + 1];
  }

  // Cut behind the header block h and some bytes x: these are in the buffer when the header loop runs.
  lemma CutBehindBlank(e: Exchange, ends: Conn -> Exchange, w: string, end: ErrorCode, d: Head, h: string, x: string,
                       y: string) returns (c: Conn)
    requires Receives(e, ends) && StreamEnd(end) && GoodHead(w, d) && SplitsAtBlank(d.rest + d.tail, h, x + y)
    ensures CutOf(c, w, end) && Delivers(ends(c), end, d.code, d.message, h + x, y)
  {
    BlankLineIsLater(w, d);
    var p, more := BehindBlank(d.rest + d.tail, d.rest, d.tail, h, x, y);
    c := BufferedPiece(e, ends, d, end, more, y);
  }

  lemma BehindBlank(t: string, rest: string, tail: string, h: string, x: string, y: string)
    returns (p: string, more: string)
    requires t == rest + tail && SplitsAtBlank(t, h, x + y) && |rest| <= |h|
    ensures p == h + x && p == rest + more && tail == more + y && Find(p, BLANK_LINE) >= 0
  {
    p := h + x;
    more := p[|rest|..];
    assert t == p + y;
    Behind(t, rest, tail, p, y, more);
    assert t[..|p|] == p;
    OccursInFront(t, BLANK_LINE, |h| - 4, |p|);
    FindHas(p, BLANK_LINE, |h| - 4);
  }

  lemma Behind(t: string, rest: string, tail: string, p: string, y: string, more: string)
    requires t == rest + tail && t == p + y && |rest| <= |p| && more == p[|rest|..]
    ensures p == rest + more && tail == more + y
  {
    assert p == t[..|p|];
    assert tail == t[|rest|..] == more + y;
  }

  // Without an empty segment the byte behind the blank line is a header or sends the loop on for ever if it
  // has arrived already, and belongs to the body if not.
  lemma NotClosedDisagrees(e: Exchange, ends: Conn -> Exchange, w: string, end: ErrorCode, d: Head, h: string,
                           body: string)
    requires Receives(e, ends) && StreamEnd(end) && GoodHead(w, d) && SplitsAtBlank(d.rest + d.tail, h, body)
    requires !BodyDecided(h, body, end)
    ensures !CutsAgree(ends, w, end)
  {
    var first, others := FirstByte(body);
    BlockEnds(d.rest + d.tail, h, body);
    assert h + "" == h;
    var c1 := CutBehindBlank(e, ends, w, end, d, h, "", body);
    var c2 := CutBehindBlank(e, ends, w, end, d, h, first, others);
    OutcomesDiffer(ends(c1), ends(c2), end, d.code, d.message, h, body);
  }

  lemma FirstByte(body: string) returns (first: string, others: string)
    requires body != ""
    ensures first == [body[0]] && others == body[1..] && first + others == body && "" + body == body
  {
    first, others := [body[0]], body[1..];
  }

  lemma OutcomesDiffer(r1: Exchange, r2: Exchange, end: ErrorCode, code: nat, message: string, h: string, body: string)
    requires |h| > 2 && h[|h| - 2] == '\r' && h[|h| - 1] == '\n' && h[|h| - 3] == '\n'
    requires !BodyDecided(h, body, end) && Delivers(r1, end, code, message, h, body)
    requires Delivers(r2, end, code, message, h + [body[0]], body[1..])
    ensures !SameOutcome(r1, r2)
  {
    BlankLineEndsWalk(h);
    var (name, headers) := Walked(h, "", map[]);
    ExhaustedScan(h, "", "", map[]);
    ExhaustedScan(h, [body[0]], "", map[]);
    assert h + "" == h;
    OneMoreByte(name, headers, body[0]);
    assert "" + body == body && "" + body[1..] == body[1..];
  }

  lemma OneMoreByte(name: string, headers: Headers, ch: char)
    ensures Scan("", name, headers) == Stops(headers, "")
    ensures if ch == '\r' then Scan([ch], name, headers) == Stops(headers, "") else Scan([ch], name, headers).Hangs?
  {
    UpToIs([ch], '\r', if ch == '\r' then 0 else 1);
  }

  lemma BadPiece(e: Exchange, ends: Conn -> Exchange, w: string, end: ErrorCode) returns (c: Conn)
    requires Receives(e, ends) && Find(w, CRLF) >= 0 && !GoodFirstLine(w)
    ensures CutOf(c, w, end) && ends(c).finishes == [InvalidResponse]
  {
    c := TwoPieces(e, w, end, LineEnd(w));
    BadStatusLine(e.(pending := None, response := e.response.(buf := w[..LineEnd(w)])));
    var (e1, c1) := ReadStep(e, c);
    assert Receive(e, c) == Receive(e1, c1) == e1;
  }

  lemma GoodPiece(e: Exchange, ends: Conn -> Exchange, w: string, end: ErrorCode, k: nat) returns (c: Conn)
    requires Receives(e, ends) && StreamEnd(end) && Find(w, CRLF) >= 0 && LineEnd(w) <= k <= |w|
    requires ParseStatusLine(w[..k]).GoodStatus?
    ensures CutOf(c, w, end) && ends(c).finishes != [InvalidResponse]
  {
    c := TwoPieces(e, w, end, k);
    var (e1, c1) := ReadStep(e, c);
    assert Receive(e, c) == Receive(e1, c1);
    GoodIsNotInvalid(e1, c1);
  }

  lemma GoodIsNotInvalid(e: Exchange, c: Conn)
    requires AwaitsHeaders(e) && StreamEnd(c.end)
    ensures Receive(e, c).finishes != [InvalidResponse]
  {
    if Find(e.response.buf + Bytes(c), BLANK_LINE) < 0 {
      NoBlankArrives(e, c);
    } else {
      var d := Head("", e.response.statusCode, e.response.statusMessage, "", "");
      var h, body := SplitAtBlank(e.response.buf + Bytes(c));
      var x, y := HeadersRun(e, c, d, h, body);
    }
  }

  // A first line that is bad alone and good with what follows is read in both ways.
  lemma LateStatusDisagrees(e: Exchange, ends: Conn -> Exchange, w: string, end: ErrorCode, k: nat)
    requires Receives(e, ends) && StreamEnd(end) && Find(w, CRLF) >= 0 && LineEnd(w) <= k <= |w|
    requires !GoodFirstLine(w) && ParseStatusLine(w[..k]).GoodStatus?
    ensures !CutsAgree(ends, w, end)
  {
    var c1 := BadPiece(e, ends, w, end);
    var c2 := GoodPiece(e, ends, w, end, k);
  }

  lemma MissingWordsDisagree(e: Exchange, ends: Conn -> Exchange, w: string, end: ErrorCode)
    requires Receives(e, ends) && StreamEnd(end) && Find(w, CRLF) >= 0 && !GoodFirstLine(w)
    requires WordsMissing(w[..LineEnd(w)]) && LateStatus(w)
    ensures !CutsAgree(ends, w, end)
  {
    var k := LateStatusGoodPart(w);
    LateStatusDisagrees(e, ends, w, end, k);
  }

  lemma UndecidedDisagrees(e: Exchange, ends: Conn -> Exchange, w: string, end: ErrorCode, d: Head)
    requires Receives(e, ends) && StreamEnd(end) && GoodHead(w, d) && !HeadersDecided(d.rest + d.tail, end)
    ensures !CutsAgree(ends, w, end)
  {
    var h, body := SplitAtBlank(d.rest + d.tail);
    NotClosedDisagrees(e, ends, w, end, d, h, body);
  }

  lemma GoodDisagrees(e: Exchange, ends: Conn -> Exchange, w: string, end: ErrorCode)
    requires Receives(e, ends) && StreamEnd(end) && Find(w, CRLF) >= 0 && GoodFirstLine(w)
    requires !HeadersDecided(AfterStatus(w), end)
    ensures !CutsAgree(ends, w, end)
  {
    var d := HeadOf(w);
    HeadIs(w, d);
    UndecidedDisagrees(e, ends, w, end, d);
  }

  lemma DependentDisagrees(e: Exchange, ends: Conn -> Exchange, w: string, end: ErrorCode)
    requires Receives(e, ends) && StreamEnd(end) && !Independent(w, end)
    ensures !CutsAgree(ends, w, end)
  {
    if GoodFirstLine(w) {
      GoodDisagrees(e, ends, w, end);
    } else {
      MissingWordsDisagree(e, ends, w, end);
    }
  }

  // For every byte stream and every end: all ways of cutting it lead to the same outcome iff it is independent.
  lemma CutsAgreeIff(e: Exchange, w: string, end: ErrorCode)
    requires Awaiting(e) && StreamEnd(end)
    ensures CutsAgree(c => Receive(e, c), w, end) <==> Independent(w, end)
  {
    var ends := c => Receive(e, c);
    if Independent(w, end) {
      forall c1, c2 | CutOf(c1, w, end) && CutOf(c2, w, end) ensures SameOutcome(ends(c1), ends(c2)) {
        IndependentAgrees(e, ends, w, c1, c2);
      }
    } else {
      DependentDisagrees(e, ends, w, end);
    }
  }

  // ---- Special cases ----

  // A first line with a wrong version, or with a code that is no number, is refused in every cut.
  lemma RefusedLineIsIndependent(w: string, end: ErrorCode)
    requires Find(w, CRLF) >= 0 && ParseStatusLine(w[..LineEnd(w)]).BadStatus?
    requires var (stream, version) := ReadToken(IStream(w[..LineEnd(w)], true), "");
      version != "" && (version == "HTTP/1.1" ==> ReadToken(stream, "").1 != "")
    ensures Independent(w, end)
  {
    var line := w[..LineEnd(w)];
    CrlfAt(w, Find(w, CRLF));
    forall k | LineEnd(w) <= k <= |w| ensures ParseStatusLine(w[..k]).BadStatus? {
      assert w[..k] == line + w[LineEnd(w)..k];
      BadLineExtends(line, w[LineEnd(w)..k]);
    }
    BadThroughoutIff(w);
  }

  lemma {:induction false} LinesClose(lines: seq<string>)
    requires AreLines(lines)
    ensures Closes(Render(lines) + CRLF)
    decreases |lines|
  {
    var block := Render(lines) + CRLF;
    if lines == [] {
      UpToIs(block, '\r', 0);
    } else {
      var rest := Render(lines[1..]) + CRLF;
      assert block == lines[0] + CRLF + rest;
      UpToIs(block, '\r', |lines[0]|);
      assert block[|lines[0]| + 2..] == rest;
      LinesClose(lines[1..]);
    }
  }

  // So is every response that keeps to the grammar.
  lemma WellFormedIsIndependent(w: string, end: ErrorCode)
    requires WellFormed(w)
    ensures Independent(w, end)
  {
    var code, message, lines, body := Decompose(w);
    var rest := Render(lines) + CRLF + body;
    ResponseTextSplits(code, message, lines, body);
    LinesAreDecided(lines, body, end);
    ResponseIsIndependent(w, end, code, message, rest);
  }

  lemma ResponseIsIndependent(w: string, end: ErrorCode, code: string, message: string, rest: string)
    requires ResponseParts(code, message, []) && w == "HTTP/1.1 " + code + message + CRLF + rest
    requires HeadersDecided(rest, end)
    ensures Independent(w, end)
  {
    FirstLineOf(w, code, message, rest);
    if Stoul(code).Some? {
      assert "" + rest == rest;
    } else {
      FirstWords(code, message);
      RefusedLineIsIndependent(w, end);
    }
  }

  lemma FirstLineOf(w: string, code: string, message: string, rest: string)
    requires ResponseParts(code, message, []) && w == "HTTP/1.1 " + code + message + CRLF + rest
    ensures Find(w, CRLF) >= 0 && w[..LineEnd(w)] == "HTTP/1.1 " + code + message + CRLF && w[LineEnd(w)..] == rest
    ensures ParseStatusLine(w[..LineEnd(w)]) ==
              match Stoul(code)
              case None => BadStatus(message + CRLF + "")
              case Some(number) => GoodStatus(ToUint32(number), message, "")
  {
    var line := "HTTP/1.1 " + code + message;
    assert forall i | 0 <= i < |code| :: !IsSpace(code[i]);
    FirstLineIs(w, line, rest);
    assert line + CRLF == "HTTP/1.1 " + code + message + CRLF + "";
    StatusLineParses(code, message, "");
  }

  lemma LinesAreDecided(lines: seq<string>, body: string, end: ErrorCode)
    requires AreLines(lines) && lines != []
    ensures HeadersDecided(Render(lines) + CRLF + body, end)
  {
    BlankLineIs(lines, body);
    LinesClose(lines);
  }

  lemma FirstWords(code: string, message: string)
    requires code != "" && SpaceFree(code) && (message != "" ==> IsSpace(message[0]))
    ensures var (stream, version) := ReadToken(IStream("HTTP/1.1 " + code + message + CRLF, true), "");
      version == "HTTP/1.1" && ReadToken(stream, "").1 == code
  {
    var tail := message + CRLF;
    assert "HTTP/1.1 " + code + message + CRLF == "HTTP/1.1" + (" " + code + tail);
    assert tail[0] == if message == "" then '\r' else message[0];
    ReadTokenIs("HTTP/1.1", " " + code + tail, "");
    ReadTokenIs(code, tail, "");
  }

  // A first line that ends after the version is refused alone.
  lemma NoCode()
    ensures ParseStatusLine("HTTP/1.1" + CRLF).BadStatus?
  {
    ReadTokenIs("HTTP/1.1", CRLF, "");
    assert ReadToken(IStream(CRLF, true), "").1 == "";
  }

  // But it takes its code from the next line if that has arrived.
  lemma LateCode(code: string, message: string, rest: string)
    requires ResponseParts(code, message, []) && Stoul(code).Some?
    ensures ParseStatusLine("HTTP/1.1" + CRLF + (code + message + CRLF + rest))
         == GoodStatus(ToUint32(Stoul(code).value), message, rest)
  {
    var tail := message + CRLF + rest;
    assert CRLF + (code + tail) == CRLF + (code + message + CRLF + rest);
    assert "HTTP/1.1" + (CRLF + (code + tail)) == "HTTP/1.1" + CRLF + (code + message + CRLF + rest);
    ReadTokenIs("HTTP/1.1", CRLF + (code + tail), "");
    SkipsCrlf(code + tail);
    assert tail[0] == if message == "" then '\r' else message[0];
    ReadTokenIs(code, tail, "");
    MessageParses(message, rest);
  }

  lemma SkipsCrlf(s: string)
    ensures SkipSpace(CRLF + s) == SkipSpace(s)
  {
    assert (CRLF + s)[1..] == "\n" + s && ("\n" + s)[1..] == s;
  }

  lemma WholeFirstPiece(e: Exchange, w: string, end: ErrorCode, p: StatusLine) returns (c: Conn, e1: Exchange)
    requires Awaiting(e) && Find(w, CRLF) >= 0 && ParseStatusLine(w) == p && p.GoodStatus?
    ensures CutOf(c, w, end) && AwaitsHeaders(e1) && e1.response == Message(p.code, p.message, map[], p.rest)
    ensures Receive(e, c) == Receive(e1, Conn([""], end))
  {
    c := TwoPieces(e, w, end, |w|);
    assert w[..|w|] == w && w[|w|..] == "";
    e1 := ReadStep(e, c).0;
  }

  // In one piece the status line is parsed from the whole stream.
  lemma WholePiece(e: Exchange, ends: Conn -> Exchange, w: string, end: ErrorCode, p: StatusLine) returns (c: Conn)
    requires Receives(e, ends) && StreamEnd(end) && Find(w, CRLF) >= 0 && ParseStatusLine(w) == p && p.GoodStatus?
    requires Find(p.rest, BLANK_LINE) >= 0
    ensures CutOf(c, w, end) && Delivers(ends(c), end, p.code, p.message, p.rest, "")
  {
    var e1;
    c, e1 := WholeFirstPiece(e, w, end, p);
    OnePiece("", end);
    BodyFollows(e1, Conn([""], end), p.rest, Conn([""], end));
  }

  // Without any stray CR the status line depends on the cut too: these bytes are refused in two pieces, and
  // a response with status 200 in one.
  lemma StatusLineDependsOnPieces(e: Exchange, ends: Conn -> Exchange) returns (w: string, c1: Conn, c2: Conn)
    requires Receives(e, ends)
    ensures CutOf(c1, w, Eof) && CutOf(c2, w, Eof) && CrOnlyInCrlf(w)
    ensures ends(c1).finishes == [InvalidResponse]
    ensures ends(c2).finishes == [Success] && |ends(c2).callbacks| == 1 && ends(c2).callbacks[0].statusCode == 200
  {
    var code, block := ToDecimal(200), "a:b\r\n\r\n";
    var text := code + " OK" + CRLF + block;
    StoulOfToDecimal(200);
    DigitsAreToken(code);
    w := "HTTP/1.1" + CRLF + text;
    NoCode();
    LateCode(code, " OK", block);
    FirstLineIs(w, "HTTP/1.1", text);
    c1 := BadPiece(e, ends, w, Eof);
    SmallBlock(block);
    c2 := WholePiece(e, ends, w, Eof, GoodStatus(200, " OK", block));
    CrInText(code);
  }

  lemma SmallBlock(block: string)
    requires block == "a:b\r\n\r\n"
    ensures Find(block, BLANK_LINE) >= 0 && Scan(block, "", map[]).Stops?
  {
    assert block[3..7] == BLANK_LINE;
    FindHas(block, BLANK_LINE, 3);
    UpToIs(block, '\r', 3);
    assert block[5..] == "\r\n";
    UpToIs("\r\n", '\r', 0);
  }

  lemma CrInText(code: string)
    requires AllDigits(code)
    ensures CrOnlyInCrlf("HTTP/1.1" + CRLF + (code + " OK" + CRLF + "a:b\r\n\r\n"))
  {
    var w := "HTTP/1.1" + CRLF + (code + " OK" + CRLF + "a:b\r\n\r\n");
    assert forall i | 0 <= i < |code| :: w[10 + i] == code[i] && IsDigit(code[i]);
  }

  // What the header loop makes of a stray CR: "a", then "\n", and so past the blank line.
  lemma StrayCrScan(rest: string)
    ensures Scan("a\r\r\n\r\n" + rest, "", map[]) == Scan(rest, "", map["" := ""])
  {
    var s := "a\r\r\n\r\n" + rest;
    UpToIs(s, '\r', 1);
    assert s[3..] == "\n\r\n" + rest && s[..1] == "a";
    UpToIs(s[3..], '\r', 1);
    assert s[3..][3..] == rest && s[3..][..1] == "\n";
    assert map["" := ""]["" := ""] == map["" := ""];
  }

  lemma StrayCrBlock(block: string)
    requires block == "a\r\r\n\r\n"
    ensures Find(block, BLANK_LINE) >= 0 && Scan(block, "", map[]).Stops?
    ensures Find(block + "x", BLANK_LINE) >= 0 && Scan(block + "x", "", map[]).Hangs?
  {
    assert block[2..6] == BLANK_LINE && (block + "x")[2..6] == BLANK_LINE && block + "" == block;
    FindHas(block, BLANK_LINE, 2);
    FindHas(block + "x", BLANK_LINE, 2);
    StrayCrScan("");
    StrayCrScan("x");
    UpToIs("x", '\r', 1);
  }

  // "HTTP/1.1 200 OK" and the bytes behind it.
  lemma OkHead(tail: string) returns (d: Head)
    ensures GoodHead(d.line + tail, d) && d.rest == "" && d.tail == tail
  {
    var code := ToDecimal(200);
    StoulOfToDecimal(200);
    DigitsAreToken(code);
    d := Head("HTTP/1.1 " + code + " OK" + CRLF, 200, " OK", "", tail);
    FirstLineOf(d.line + tail, code, " OK", tail);
    HeadIs(d.line + tail, d);
  }

  lemma HangingPiece(e: Exchange, ends: Conn -> Exchange, d: Head) returns (c: Conn)
    requires Receives(e, ends) && GoodHead(d.line + d.tail, d) && d.rest == ""
    requires Find(d.tail, BLANK_LINE) >= 0 && Scan(d.tail, "", map[]).Hangs?
    ensures CutOf(c, d.line + d.tail, Eof) && ends(c).hung && ends(c).callbacks == []
  {
    assert d.rest + d.tail == d.tail == d.tail + "";
    c := BufferedPiece(e, ends, d, Eof, d.tail, "");
  }

  lemma StoppingPiece(e: Exchange, ends: Conn -> Exchange, d: Head, block: string, x: string) returns (c: Conn)
    requires Receives(e, ends) && GoodHead(d.line + d.tail, d) && d.rest == "" && d.tail == block + x
    requires Find(block, BLANK_LINE) >= 0 && Scan(block, "", map[]).Stops?
    ensures CutOf(c, d.line + d.tail, Eof) && ends(c).finishes == [Success] && |ends(c).callbacks| == 1
  {
    assert d.rest + block == block;
    c := BufferedPiece(e, ends, d, Eof, block, x);
  }

  // With a stray CR before the blank line the same bytes hang the client when they come at once, and are
  // delivered when they are cut behind the blank line.
  lemma StrayCrDependsOnPieces(e: Exchange, ends: Conn -> Exchange) returns (w: string, c1: Conn, c2: Conn)
    requires Receives(e, ends)
    ensures CutOf(c1, w, Eof) && CutOf(c2, w, Eof)
    ensures ends(c1).hung && ends(c1).callbacks == []
    ensures ends(c2).finishes == [Success] && |ends(c2).callbacks| == 1
  {
    var block := "a\r\r\n\r\n";
    var tail := block + "x";
    var d := OkHead(tail);
    w := d.line + tail;
    StrayCrBlock(block);
    c1 := HangingPiece(e, ends, d);
    c2 := StoppingPiece(e, ends, d, block, "x");
  }
}
