// The header loop of HttpRequest::OnHeadersReceived (005_http/http_request.cpp, lines 144-166).
module HeaderLoop {
  import opened Streams

  type Headers = map<string, string>

  // ---- One turn of the loop, as written ----

  datatype Loop = Loop(stream: IStream, header: string, name: string, headers: Headers, left: bool)

  function LineName(line: string, carried: string): string {
    var colon := UpTo(line, ':');
    if colon < |line| then line[..colon] else carried
  }

  function LineValue(line: string): string {
    var colon := UpTo(line, ':');
    if colon + 1 < |line| then line[colon + 1..] else ""
  }

  // `left` becomes true when the loop is left; the local variables survive from turn to turn.
  function Turn(l: Loop): Loop {
    if l.left then l
    else
      var (stream, header) := GetLine(l.stream, '\r', l.header);
      var l := l.(stream := Get(stream), header := header);
      if header == "" then l.(left := true)
      else
        var name := LineName(header, l.name);
        l.(name := name, headers := l.headers[name := LineValue(header)])
  }

  function Turns(l: Loop, n: nat): Loop
    decreases n
  {
    if n == 0 then l else Turns(Turn(l), n - 1)
  }

  // ---- What the loop computes ----

  datatype Result = Stops(headers: Headers, rest: string) | Hangs(headers: Headers)

  // The CR-by-CR scan: the loop stops at an empty segment, or at the end of the buffer if the segment
  // before it was consumed together with the character after its CR; otherwise it never stops.
  function Scan(buf: string, name: string, headers: Headers): Result
    decreases |buf|
  {
    if buf == "" then Stops(headers, "")
    else
      var n := UpTo(buf, '\r');
      if n == 0 then Stops(headers, if |buf| >= 2 then buf[2..] else "")
      else
        var name := LineName(buf[..n], name);
        var headers := headers[name := LineValue(buf[..n])];
        if n + 1 < |buf| then Scan(buf[n + 2..], name, headers) else Hangs(headers)
  }

  // The CR-by-CR walk over the bytes meets an empty segment.
  predicate Closes(buf: string)
    decreases |buf|
  {
    buf != "" && var n := UpTo(buf, '\r'); n == 0 || (n + 1 < |buf| && Closes(buf[n + 2..]))
  }

  // The walk meets no empty segment, and the bytes end just after a segment, its CR and one more character.
  predicate Exhausts(buf: string)
    decreases |buf|
  {
    buf == "" || var n := UpTo(buf, '\r'); 0 < n && n + 1 < |buf| && Exhausts(buf[n + 2..])
  }

  lemma {:induction false} ScanStopsIff(buf: string, name: string, headers: Headers)
    ensures Scan(buf, name, headers).Stops? <==> Closes(buf) || Exhausts(buf)
    decreases |buf|
  {
    var n := UpTo(buf, '\r');
    if 0 < n && n + 1 < |buf| {
      var name1 := LineName(buf[..n], name);
      ScanStopsIff(buf[n + 2..], name1, headers[name1 := LineValue(buf[..n])]);
    }
  }

  // The stream has failed, `header` is not empty, and its line is stored already.
  predicate Stuck(l: Loop) {
    && !l.stream.good && l.header != "" && !l.left
    && LineName(l.header, l.name) == l.name && l.headers[l.name := LineValue(l.header)] == l.headers
  }

  // Then every turn repeats the last one, and the loop is never left.
  lemma {:induction false} StuckForever(l: Loop, n: nat)
    requires Stuck(l)
    ensures Turns(l, n) == l
    decreases n
  {
    if n > 0 {
      assert Turn(l) == l;
      StuckForever(l, n - 1);
    }
  }

  lemma LeftForGood(l: Loop, n: nat)
    requires l.left
    ensures Turns(l, n) == l
  {}

  function ScanFrom(l: Loop): Result {
    Scan(l.stream.buf, l.name, l.headers)
  }

  // The scan's result r is what the loop has still to do: it has been left with that result, or is stuck with
  // it, or will compute it from the bytes ahead.
  predicate Follows(r: Result, l: Loop) {
    if l.left then r == Stops(l.headers, l.stream.buf)
    else if !l.stream.good then Stuck(l) && r == Hangs(l.headers)
    else r == ScanFrom(l)
  }

  // A turn on a good stream leaves, or fails the stream for good, or consumes a segment as the scan does.
  lemma TurnOnGoodStream(l: Loop)
    requires l.stream.good && !l.left
    ensures var l1 := Turn(l);
      && Follows(ScanFrom(l), l1)
      && (l1.stream.good && !l1.left ==> |l1.stream.buf| < |l.stream.buf|)
  {
    var buf := l.stream.buf;
    var n := UpTo(buf, '\r');
    if n + 1 < |buf| {
      assert buf[n + 1..][1..] == buf[n + 2..];
    } else if buf != "" {
      assert n == |buf| ==> buf[..n] == buf;
    }
  }

  lemma {:induction false} TurnsFollow(r: Result, l: Loop, n: nat)
    requires Follows(r, l)
    ensures var l1 := Turns(l, n);
      Follows(r, l1) && (l1.stream.good && !l1.left ==> n + |l1.stream.buf| <= |l.stream.buf|)
    decreases n
  {
    if l.left {
      LeftForGood(l, n);
    } else if !l.stream.good {
      StuckForever(l, n);
    } else if n > 0 {
      TurnOnGoodStream(l);
      TurnsFollow(r, Turn(l), n - 1);
    }
  }

  // The loop ends iff the scan stops, and then it has the scan's headers and has left the scan's rest;
  // otherwise it goes on with the scan's headers for ever.
  lemma LoopEndsIffScanStops(l: Loop, n: nat)
    requires l.stream.good && !l.left
    ensures Turns(l, n).left ==> ScanFrom(l) == Stops(Turns(l, n).headers, Turns(l, n).stream.buf)
    ensures n > |l.stream.buf| ==>
              if ScanFrom(l).Stops? then Turns(l, n).left
              else !Turns(l, n).left && Turns(l, n).headers == ScanFrom(l).headers
  {
    TurnsFollow(ScanFrom(l), l, n);
  }

  // The loop as it is entered.
  function Start(buf: string, headers: Headers): Loop {
    Loop(IStream(buf, true), "", "", headers, false)
  }

  // Exactly when the loop terminates.
  lemma TerminatesIff(buf: string, headers: Headers)
    ensures (exists n :: Turns(Start(buf, headers), n).left) <==> Closes(buf) || Exhausts(buf)
  {
    var l := Start(buf, headers);
    if n: nat :| Turns(l, n).left {
      LoopEndsIffScanStops(l, n);
    }
    LoopEndsIffScanStops(l, |buf| + 1);
    ScanStopsIff(buf, "", headers);
    assert Scan(buf, "", headers).Stops? ==> Turns(l, |buf| + 1).left;
  }

  // ---- What more bytes change ----

  lemma SegmentScan(buf: string, more: string, name: string, headers: Headers)
    requires UpTo(buf, '\r') + 1 < |buf|
    ensures var n, r := UpTo(buf, '\r'), Scan(buf + more, name, headers);
      if n == 0 then r == Stops(headers, buf[2..] + more)
      else
        var name1 := LineName(buf[..n], name);
        r == Scan(buf[n + 2..] + more, name1, headers[name1 := LineValue(buf[..n])])
  {
    var all, n := buf + more, UpTo(buf, '\r');
    assert all[n] == buf[n] && all[..n] == buf[..n];
    UpToIs(all, '\r', n);
    assert all[n + 2..] == buf[n + 2..] + more;
  }

  // After an empty segment the loop looks at nothing more: further bytes are left where they are.
  lemma {:induction false} ClosedScan(buf: string, more: string, name: string, headers: Headers)
    requires Closes(buf) && buf[|buf| - 1] == '\n'
    ensures var r := Scan(buf, name, headers);
      r.Stops? && Scan(buf + more, name, headers) == Stops(r.headers, r.rest + more)
    decreases |buf|
  {
    var n := UpTo(buf, '\r');
    SegmentScan(buf, more, name, headers);
    if n > 0 {
      var name1 := LineName(buf[..n], name);
      ClosedScan(buf[n + 2..], more, name1, headers[name1 := LineValue(buf[..n])]);
    }
  }

  // The name and the headers the loop has once it has used up such bytes.
  function Walked(buf: string, name: string, headers: Headers): (string, Headers)
    requires Exhausts(buf)
    decreases |buf|
  {
    if buf == "" then (name, headers)
    else
      var n := UpTo(buf, '\r');
      var name := LineName(buf[..n], name);
      Walked(buf[n + 2..], name, headers[name := LineValue(buf[..n])])
  }

  // Without an empty segment it goes on into whatever has arrived behind.
  lemma {:induction false} ExhaustedScan(buf: string, more: string, name: string, headers: Headers)
    requires Exhausts(buf)
    ensures var (name', headers') := Walked(buf, name, headers);
      Scan(buf + more, name, headers) == Scan(more, name', headers')
    decreases |buf|
  {
    if buf == "" {
      assert buf + more == more;
    } else {
      var n := UpTo(buf, '\r');
      var name1 := LineName(buf[..n], name);
      SegmentScan(buf, more, name, headers);
      ExhaustedScan(buf[n + 2..], more, name1, headers[name1 := LineValue(buf[..n])]);
    }
  }

  // Bytes that end with a blank line are walked to the end, or closed before.
  lemma {:induction false} BlankLineEndsWalk(buf: string)
    requires |buf| >= 2 && buf[|buf| - 2] == '\r' && buf[|buf| - 1] == '\n'
    requires |buf| > 2 ==> buf[|buf| - 3] == '\n'
    ensures Closes(buf) || Exhausts(buf)
    decreases |buf|
  {
    var n := UpTo(buf, '\r');
    assert n <= |buf| - 2 && n != |buf| - 3;
    if 0 < n < |buf| - 2 {
      var rest := buf[n + 2..];
      assert forall i | 0 <= i < |rest| :: rest[i] == buf[n + 2 + i];
      BlankLineEndsWalk(rest);
    } else if n > 0 {
      assert buf[n + 2..] == "";
    }
  }

  // ---- The loop as a fold over lines ----

  // A header line as it may stand before the blank line: not empty and without CR.
  predicate IsLine(line: string) {
    line != "" && '\r' !in line
  }

  predicate AreLines(lines: seq<string>) {
    forall i | 0 <= i < |lines| :: IsLine(lines[i])
  }

  function Render(lines: seq<string>): string {
    if lines == [] then "" else lines[0] + CRLF + Render(lines[1..])
  }

  // The name a line is stored under: its own, or that of the nearest line above it that has one.
  function NameAt(lines: seq<string>, name: string, i: nat): string
    requires i < |lines|
  {
    if UpTo(lines[i], ':') < |lines[i]| then lines[i][..UpTo(lines[i], ':')]
    else if i == 0 then name
    else NameAt(lines, name, i - 1)
  }

  function Fold(lines: seq<string>, name: string, headers: Headers): Headers
    decreases |lines|
  {
    if lines == [] then headers
    else
      var name := LineName(lines[0], name);
      Fold(lines[1..], name, headers[name := LineValue(lines[0])])
  }

  // On a block of lines that ends with a blank line the loop stops just after the blank line, whatever
  // follows it, and stores the fold of the lines.
  lemma {:induction false} LoopFoldsLines(lines: seq<string>, rest: string, name: string, headers: Headers)
    requires AreLines(lines)
    ensures Scan(Render(lines) + CRLF + rest, name, headers) == Stops(Fold(lines, name, headers), rest)
    decreases |lines|
  {
    var buf := Render(lines) + CRLF + rest;
    if lines == [] {
      UpToIs(buf, '\r', 0);
      assert buf[2..] == rest;
    } else {
      var line := lines[0];
      var tail := Render(lines[1..]) + CRLF + rest;
      assert buf == line + CRLF + tail;
      assert buf[..|line|] == line;
      UpToIs(buf, '\r', |line|);
      assert buf[|line| + 2..] == tail;
      LoopFoldsLines(lines[1..], rest, LineName(line, name), headers[LineName(line, name) := LineValue(line)]);
    }
  }

  lemma {:induction false} NameAtShift(lines: seq<string>, name: string, i: nat)
    requires 0 < i < |lines|
    ensures NameAt(lines, name, i) == NameAt(lines[1..], LineName(lines[0], name), i - 1)
    decreases i
  {
    if UpTo(lines[i], ':') == |lines[i]| && i > 1 {
      NameAtShift(lines, name, i - 1);
    }
  }

  // The value of a line: what follows its first ':', and nothing if it has none.
  ghost predicate HasValue(line: string, value: string) {
    if ':' in line then exists name :: ':' !in name && line == name + ":" + value
    else value == ""
  }

  lemma LineHasValue(line: string)
    ensures HasValue(line, LineValue(line))
  {
    var n := UpTo(line, ':');
    if ':' in line {
      var i :| 0 <= i < |line| && line[i] == ':';
      UpToAtMost(line, ':', i);
      assert line == line[..n] + ":" + line[n + 1..];
      assert LineValue(line) == line[n + 1..];
    }
  }

  // The last line with a name wins, and names that no line has keep their value.
  lemma FoldLastWins(lines: seq<string>, name: string, headers: Headers, key: string, i: nat)
    requires i <= |lines|
    requires i < |lines| ==> NameAt(lines, name, i) == key
    requires forall j | 0 <= j < |lines| && (j > i || i == |lines|) :: NameAt(lines, name, j) != key
    ensures var r := Fold(lines, name, headers);
      if i < |lines| then key in r && HasValue(lines[i], r[key])
      else (key in r <==> key in headers) && (key in headers ==> r[key] == headers[key])
  {
    FoldLast(lines, name, headers, key, i);
    if i < |lines| {
      LineHasValue(lines[i]);
    }
  }

  lemma {:induction false} FoldLast(lines: seq<string>, name: string, headers: Headers, key: string, i: nat)
    requires i <= |lines|
    requires i < |lines| ==> NameAt(lines, name, i) == key
    requires forall j | 0 <= j < |lines| && (j > i || i == |lines|) :: NameAt(lines, name, j) != key
    ensures var r := Fold(lines, name, headers);
      if i < |lines| then key in r && r[key] == LineValue(lines[i])
      else (key in r <==> key in headers) && (key in headers ==> r[key] == headers[key])
    decreases |lines|
  {
    if lines != [] {
      var name1 := LineName(lines[0], name);
      assert NameAt(lines, name, 0) == name1;
      forall j | 0 <= j < |lines| - 1
        ensures NameAt(lines[1..], name1, j) == NameAt(lines, name, j + 1)
      {
        NameAtShift(lines, name, j + 1);
      }
      var headers1 := headers[name1 := LineValue(lines[0])];
      if i == 0 {
        FoldLast(lines[1..], name1, headers1, key, |lines| - 1);
      } else {
        FoldLast(lines[1..], name1, headers1, key, i - 1);
      }
    }
  }
}
