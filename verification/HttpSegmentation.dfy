// Segmentation independence and the print/parse round trip of HTTP responses
// (005_http/http_request.cpp, lines 94-180; sections 3.1.2 and 3.2 of RFC 7230).
module HttpSegmentation {
  import opened Asio
  import opened Errors
  import opened HeaderLoop
  import opened HttpReceive
  import opened HttpRequest
  import opened Streams
  import opened Wrappers

  // ---- Which byte streams are responses ----

  // Every CR is followed by a LF.
  predicate CrOnlyInCrlf(s: string) {
    forall i | 0 <= i < |s| && s[i] == '\r' :: i + 1 < |s| && s[i + 1] == '\n'
  }

  // "HTTP/1.1 code text" as first line, at least one header line, a blank line, and up to there CR only in
  // CRLF. What comes after the blank line is arbitrary.
  predicate WellFormed(w: string) {
    var blank := Find(w, BLANK_LINE);
    && blank >= 0 && Find(w, CRLF) < blank
    && CrOnlyInCrlf(w[..blank + 4])
    && |w| > 9 && w[..9] == "HTTP/1.1 " && !IsSpace(w[9])
  }

  lemma OccursInSlice(s: string, from: nat, to: nat, pat: string, j: int)
    requires from <= to <= |s| && Occurs(s[from..to], pat, j)
    ensures Occurs(s, pat, from + j)
  {
    var t, u := s[from..to][j..j + |pat|], s[from + j..from + j + |pat|];
    assert |t| == |u| && forall k | 0 <= k < |t| :: t[k] == u[k];
  }

  lemma {:induction false} SplitLines(block: string) returns (lines: seq<string>)
    requires |block| >= 2 && block[|block| - 2..] == CRLF && CrOnlyInCrlf(block)
    requires block[0] != '\r' && forall j | 0 <= j :: !Occurs(block, BLANK_LINE, j)
    ensures lines != [] && AreLines(lines) && Render(lines) == block
    decreases |block|
  {
    var n := UpTo(block, '\r');
    assert block[|block| - 2] == block[|block| - 2..][0] == '\r';
    var line, rest := block[..n], block[n + 2..];
    assert block[n..n + 2] == CRLF;
    assert block == line + CRLF + rest;
    if rest == "" {
      lines := [line];
      assert lines[1..] == [];
    } else {
      assert |rest| >= 2 && rest[|rest| - 2..] == CRLF by {
        assert block[|block| - 2] == '\r';
      }
      assert rest[0] != '\r' by {
        assert rest[0] == block[n + 2] && !Occurs(block, BLANK_LINE, n);
        BlankAt(block, n);
        CrlfAt(block, n + 2);
      }
      forall j | 0 <= j ensures !Occurs(rest, BLANK_LINE, j) {
        if Occurs(rest, BLANK_LINE, j) {
          assert rest == block[n + 2..|block|];
          OccursInSlice(block, n + 2, |block|, BLANK_LINE, j);
        }
      }
      forall i | 0 <= i < |rest| && rest[i] == '\r' ensures i + 1 < |rest| && rest[i + 1] == '\n' {
        assert block[n + 2 + i] == '\r';
      }
      var more := SplitLines(rest);
      lines := [line] + more;
      assert lines[1..] == more;
    }
  }

  // The header lines of a well-formed stream, each with its line end.
  lemma HeaderBlock(w: string, i: nat) returns (lines: seq<string>)
    requires WellFormed(w) && i + 2 < Find(w, BLANK_LINE) && w[i + 2] != '\r'
    ensures lines != [] && AreLines(lines) && Render(lines) == w[i + 2..Find(w, BLANK_LINE) + 2]
  {
    var blank := Find(w, BLANK_LINE);
    var block := w[i + 2..blank + 2];
    assert block[|block| - 2..] == w[blank..blank + 4][..2];
    forall j | 0 <= j ensures !Occurs(block, BLANK_LINE, j) {
      if Occurs(block, BLANK_LINE, j) {
        OccursInSlice(w, i + 2, blank + 2, BLANK_LINE, j);
      }
    }
    forall k | 0 <= k < |block| && block[k] == '\r' ensures k + 1 < |block| && block[k + 1] == '\n' {
      assert w[..blank + 4][i + 2 + k] == '\r';
    }
    lines := SplitLines(block);
  }

  lemma Cut(w: string, i: nat, blank: nat)
    requires i + 2 <= blank && blank + 4 <= |w| && w[i..i + 2] == CRLF && w[blank + 2..blank + 4] == CRLF
    ensures w == w[..i] + CRLF + w[i + 2..blank + 2] + CRLF + w[blank + 4..]
  {
    assert w == w[..i] + w[i..i + 2] + w[i + 2..blank + 2] + w[blank + 2..blank + 4] + w[blank + 4..];
  }

  // A well-formed stream is a status line, header lines, a blank line and a body, in that order.
  lemma Decompose(w: string) returns (code: string, message: string, lines: seq<string>, body: string)
    requires WellFormed(w)
    ensures ResponseParts(code, message, lines) && lines != []
    ensures w == ResponseText(code, message, lines, body)
    ensures body == w[Find(w, BLANK_LINE) + 4..]
  {
    var blank := Find(w, BLANK_LINE);
    var i := FirstCrlf(w);
    lines := HeaderBlock(w, i);
    code, message := StatusParts(w, i);
    body := w[blank + 4..];
    BlankAt(w, blank);
    Assemble(w, i, blank, code, message, lines);
  }

  lemma Assemble(w: string, i: nat, blank: nat, code: string, message: string, lines: seq<string>)
    requires i + 2 <= blank && Occurs(w, CRLF, i) && Occurs(w, CRLF, blank + 2)
    requires w[..i] == "HTTP/1.1 " + code + message && w[i + 2..blank + 2] == Render(lines)
    ensures w == ResponseText(code, message, lines, w[blank + 4..])
  {
    Cut(w, i, blank);
  }

  lemma CrStartsCrlf(w: string, n: nat, k: nat)
    requires n <= |w| && CrOnlyInCrlf(w[..n]) && k < n
    ensures w[k] == '\r' ==> Occurs(w, CRLF, k)
  {
    CrlfAt(w, k);
    assert w[..n][k] == w[k];
    assert k + 1 < n ==> w[..n][k + 1] == w[k + 1];
  }

  lemma PastVersion(w: string, i: nat)
    requires |w| > 9 && w[..9] == "HTTP/1.1 " && !IsSpace(w[9]) && i < |w| && w[i] == '\r'
    ensures 9 < i
  {
    assert forall k | 0 <= k < 9 :: w[k] == w[..9][k];
  }

  lemma FirstCrlf(w: string) returns (i: nat)
    requires WellFormed(w)
    ensures i == Find(w, CRLF) && 9 < i && i + 2 < Find(w, BLANK_LINE) && '\r' !in w[..i] && w[i + 2] != '\r'
  {
    var blank := Find(w, BLANK_LINE);
    BlankAt(w, blank);
    FindHas(w, CRLF, blank);
    i := Find(w, CRLF);
    CrlfAt(w, i);
    PastVersion(w, i);
    LineBeforeBlank(w, i, blank);
  }

  lemma LineBeforeBlank(w: string, i: nat, blank: nat)
    requires blank + 4 <= |w| && i < blank && Occurs(w, CRLF, i) && Occurs(w, CRLF, blank)
    requires CrOnlyInCrlf(w[..blank + 4])
    requires !Occurs(w, BLANK_LINE, i) && forall k | 0 <= k < i :: !Occurs(w, CRLF, k)
    ensures i + 2 < blank && '\r' !in w[..i] && w[i + 2] != '\r'
  {
    CrlfAt(w, i);
    CrlfAt(w, blank);
    BlankAt(w, i);
    forall k | 0 <= k < i ensures w[k] != '\r' {
      CrStartsCrlf(w, blank + 4, k);
    }
    CrStartsCrlf(w, blank + 4, i + 2);
  }

  lemma StatusParts(w: string, i: nat) returns (code: string, message: string)
    requires 9 < i <= |w| && w[..9] == "HTTP/1.1 " && !IsSpace(w[9]) && '\r' !in w[..i]
    ensures ResponseParts(code, message, []) && w[..i] == "HTTP/1.1 " + code + message
  {
    var text := w[9..i];
    var n := TokenLength(text);
    code, message := text[..n], text[n..];
    assert text[0] == w[9];
    assert w[..i] == w[..9] + text;
    assert forall k | 0 <= k < |message| :: message[k] == w[..i][9 + |code| + k];
  }

  // The response a well-formed stream stands for, and the error at its end, decide everything: how the
  // bytes are cut into pieces makes no difference, and the body is exactly what follows the blank line.
  lemma SegmentationIndependent(e: Exchange, c1: Conn, c2: Conn)
    requires Awaiting(e) && ValidConn(c1) && c1.end == c2.end && Bytes(c1) == Bytes(c2) && WellFormed(Bytes(c1))
    ensures var r1, r2 := Receive(e, c1), Receive(e, c2);
      && r1.finishes == r2.finishes && |r1.finishes| == 1
      && r1.callbacks == r2.callbacks
      && (r1.finishes == [Success] ==>
            |r1.callbacks| == 1 && r1.callbacks[0].buf == Bytes(c1)[Find(Bytes(c1), BLANK_LINE) + 4..])
  {
    var code, message, lines, body := Decompose(Bytes(c1));
    ResponseReceived(e, c1, code, message, lines, body);
    ResponseReceived(e, c2, code, message, lines, body);
  }

  // The headers of a response with any header lines: under each name the value of the last line stored under
  // it, which is empty for a line without ':', and no other names.
  lemma HeadersDelivered(e: Exchange, c: Conn, code: string, message: string, lines: seq<string>, body: string,
                         key: string, i: nat)
    requires Awaiting(e) && c.end == Eof && ResponseParts(code, message, lines) && lines != [] && Stoul(code).Some?
    requires Bytes(c) == ResponseText(code, message, lines, body) && i <= |lines|
    requires i < |lines| ==> NameAt(lines, "", i) == key
    requires forall j | 0 <= j < |lines| && (j > i || i == |lines|) :: NameAt(lines, "", j) != key
    ensures var r := Receive(e, c);
      && |r.callbacks| == 1
      && var headers := r.callbacks[0].headers;
        if i < |lines| then key in headers && HasValue(lines[i], headers[key]) else key !in headers
  {
    ResponseReceived(e, c, code, message, lines, body);
    FoldLastWins(lines, "", map[], key, i);
  }

  // ---- Printing and parsing ----

  datatype Header = Header(name: string, value: string)

  predicate Printable(h: Header) {
    ':' !in h.name && '\r' !in h.name && '\r' !in h.value
  }

  function HeaderLines(headers: seq<Header>): seq<string> {
    seq(|headers|, i requires 0 <= i < |headers| => headers[i].name + ":" + headers[i].value)
  }

  function Print(code: nat, text: string, headers: seq<Header>, body: string): string {
    ResponseText(ToDecimal(code), " " + text, HeaderLines(headers), body)
  }

  predicate DistinctNames(headers: seq<Header>) {
    forall i, j | 0 <= i < j < |headers| :: headers[i].name != headers[j].name
  }

  lemma HeaderLineParts(h: Header)
    requires Printable(h)
    ensures var line := h.name + ":" + h.value;
      IsLine(line) && LineName(line, "") == h.name && LineValue(line) == h.value && UpTo(line, ':') == |h.name|
  {
    var line := h.name + ":" + h.value;
    assert line[..|h.name|] == h.name && line[|h.name| + 1..] == h.value;
    UpToIs(line, ':', |h.name|);
  }

  // The map holds exactly the listed headers.
  predicate Represents(m: Headers, headers: seq<Header>) {
    && (forall i | 0 <= i < |headers| :: headers[i].name in m && m[headers[i].name] == headers[i].value)
    && (forall name | name in m :: exists i :: 0 <= i < |headers| && headers[i].name == name)
  }

  // The headers a printed list of distinct headers folds to.
  lemma PrintedHeadersFold(headers: seq<Header>)
    requires DistinctNames(headers) && forall i | 0 <= i < |headers| :: Printable(headers[i])
    ensures AreLines(HeaderLines(headers))
    ensures Represents(Fold(HeaderLines(headers), "", map[]), headers)
  {
    var lines := HeaderLines(headers);
    var folded := Fold(lines, "", map[]);
    forall i | 0 <= i < |lines|
      ensures IsLine(lines[i]) && NameAt(lines, "", i) == headers[i].name && LineValue(lines[i]) == headers[i].value
    {
      HeaderLineParts(headers[i]);
    }
    forall i | 0 <= i < |headers|
      ensures headers[i].name in folded && folded[headers[i].name] == headers[i].value
    {
      FoldLast(lines, "", map[], headers[i].name, i);
    }
    forall name | name in folded
      ensures exists i :: 0 <= i < |headers| && headers[i].name == name
    {
      if forall i | 0 <= i < |headers| :: headers[i].name != name {
        FoldLastWins(lines, "", map[], name, |lines|);
      }
    }
  }

  // A printed response comes back with its code, its headers verbatim and its body, in whatever pieces it
  // travels; the text comes back with the space that separates it from the code.
  lemma RoundTrip(e: Exchange, c: Conn, code: nat, text: string, headers: seq<Header>, body: string)
    requires Awaiting(e) && c.end == Eof && Bytes(c) == Print(code, text, headers, body)
    requires code < 0x1_0000_0000 && '\r' !in text && headers != [] && DistinctNames(headers)
    requires forall i | 0 <= i < |headers| :: Printable(headers[i])
    ensures var r := Receive(e, c);
      && r.finishes == [Success] && |r.callbacks| == 1
      && r.callbacks[0].statusCode == code && r.callbacks[0].statusMessage == " " + text && r.callbacks[0].buf == body
      && Represents(r.callbacks[0].headers, headers)
  {
    PrintedHeadersFold(headers);
    PrintedReceived(e, c, code, text, HeaderLines(headers), body);
  }

  lemma NumberReceived(e: Exchange, c: Conn, digits: string, code: nat, message: string, lines: seq<string>,
                       body: string)
    requires Awaiting(e) && c.end == Eof && Bytes(c) == ResponseText(digits, message, lines, body)
    requires ResponseParts(digits, message, lines) && lines != [] && Stoul(digits) == Some(code) && code < UINT32_RANGE
    ensures var r := Receive(e, c);
      r.finishes == [Success] && r.callbacks == [Message(code, message, Fold(lines, "", map[]), body)]
  {
    ResponseReceived(e, c, digits, message, lines, body);
  }

  lemma PrintedReceived(e: Exchange, c: Conn, code: nat, text: string, lines: seq<string>, body: string)
    requires Awaiting(e) && c.end == Eof && Bytes(c) == ResponseText(ToDecimal(code), " " + text, lines, body)
    requires code < UINT32_RANGE && '\r' !in text && lines != [] && AreLines(lines)
    ensures var r := Receive(e, c);
      r.finishes == [Success] && r.callbacks == [Message(code, " " + text, Fold(lines, "", map[]), body)]
  {
    StoulOfToDecimal(code);
    PrintedParts(code, text, lines);
    NumberReceived(e, c, ToDecimal(code), code, " " + text, lines, body);
  }

  lemma PrintedParts(code: nat, text: string, lines: seq<string>)
    requires '\r' !in text && AreLines(lines)
    ensures ResponseParts(ToDecimal(code), " " + text, lines)
  {
    DigitsAreToken(ToDecimal(code));
  }

  lemma DigitsAreToken(s: string)
    requires AllDigits(s)
    ensures SpaceFree(s)
  {
    assert forall i | 0 <= i < |s| :: IsDigit(s[i]) ==> !IsSpace(s[i]);
  }

  // A status line and the blank line, without any header line in between, sent completely or only in part,
  // is never a response: the second read waits for a blank line that starts after the status line, and
  // fails when the stream ends.
  lemma NoHeaderLineNoCallback(e: Exchange, c: Conn, code: string, message: string)
    requires Awaiting(e) && ValidConn(c) && ResponseParts(code, message, [])
    requires Bytes(c) <= "HTTP/1.1 " + code + message + CRLF + CRLF
    ensures var r := Receive(e, c);
      r.callbacks == [] && (r.finishes == [c.end] || (r.finishes == [InvalidResponse] && Stoul(code).None?))
  {
    var line := "HTTP/1.1 " + code + message;
    var text := line + CRLF + CRLF;
    assert Bytes(c) == text[..|Bytes(c)|];
    if |Bytes(c)| < |line| + 2 {
      assert forall k | 0 <= k < |code| :: !IsSpace(code[k]);
      CutBeforeLineEnd(e, c, line);
    } else {
      var rest := Bytes(c)[|line| + 2..];
      assert text[..|line| + 2] == line + CRLF;
      assert Bytes(c) == line + CRLF + rest;
      StatusRead(e, c, code, message, rest);
      if Stoul(code).Some? {
        var (e1, c1) := ReadStep(e, c);
        assert |e1.response.buf + Bytes(c1)| <= 2;
        NoBlankArrives(e1, c1);
        assert Receive(e, c) == Receive(e1, c1);
      }
    }
  }

  // A stream that ends before the end of the status line.
  lemma CutBeforeLineEnd(e: Exchange, c: Conn, line: string)
    requires Awaiting(e) && ValidConn(c) && |Bytes(c)| < |line| + 2 && Bytes(c) <= line + CRLF + CRLF
    requires '\r' !in line
    ensures Receive(e, c).callbacks == [] && Receive(e, c).finishes == [c.end]
  {
    var i := Find(Bytes(c), CRLF);
    if i >= 0 {
      OccursInPrefix(Bytes(c), line + CRLF + CRLF, CRLF, i);
      NoEarlyCrlf(line, CRLF, i);
    }
    NoLineArrives(e, c);
  }
}
