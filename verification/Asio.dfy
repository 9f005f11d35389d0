// The read operations of boost::asio on a stream whose bytes arrive in arbitrary pieces. This is the
// assumption about the library on which the HTTP results rest.
module Asio {
  import opened Errors
  import opened Streams
  import opened Wrappers

  // What the peer still sends, in the pieces in which the socket will hand it out, and how the stream
  // ends after them: Eof when the peer closed its side, another error otherwise.
  datatype Conn = Conn(pieces: seq<string>, end: ErrorCode)

  predicate ValidConn(c: Conn) {
    c.end != Success && c.end != NotFound
  }

  function Flatten(pieces: seq<string>): string {
    if pieces == [] then "" else pieces[0] + Flatten(pieces[1..])
  }

  function Bytes(c: Conn): string {
    Flatten(c.pieces)
  }

  datatype ReadResult = ReadResult(ec: ErrorCode, buf: string, conn: Conn)

  // asio::async_read_until into a streambuf that holds at most cap bytes: pieces are appended until the
  // delimiter is present; whatever follows the delimiter stays in the buffer. A full buffer without the
  // delimiter is NotFound.
  function ReadUntil(buf: string, c: Conn, delim: string, cap: Option<nat>): ReadResult
    decreases |c.pieces|, if c.pieces == [] then 0 else |c.pieces[0]|
  {
    if Find(buf, delim) >= 0 then ReadResult(Success, buf, c)
    else if cap.Some? && |buf| >= cap.value then ReadResult(NotFound, buf, c)
    else if c.pieces == [] then ReadResult(c.end, buf, c)
    else
      var piece := c.pieces[0];
      if cap.Some? && |buf| + |piece| > cap.value then
        var room := cap.value - |buf|;
        ReadUntil(buf + piece[..room], c.(pieces := [piece[room..]] + c.pieces[1..]), delim, cap)
      else
        ReadUntil(buf + piece, c.(pieces := c.pieces[1..]), delim, cap)
  }

  // asio::async_read with an unlimited buffer ends only when the stream does.
  function ReadAll(buf: string, c: Conn): ReadResult {
    ReadResult(c.end, buf + Bytes(c), c.(pieces := []))
  }

  // The part of the whole stream that fits into the buffer.
  function Fitting(all: string, cap: Option<nat>): string {
    if cap.Some? && cap.value < |all| then all[..cap.value] else all
  }

  lemma OccursInPrefix(s: string, t: string, pat: string, i: int)
    requires s <= t && Occurs(s, pat, i)
    ensures Occurs(t, pat, i)
  {
    assert t[..|s|] == s;
    assert s[i..i + |pat|] == t[i..i + |pat|];
  }

  // No byte is lost or duplicated, and the outcome depends on the whole stream alone, not on its pieces:
  // the delimiter is found iff it occurs in the part that fits, the buffer overflows iff that part fills
  // it without the delimiter, and otherwise the error that ended the stream is reported.
  lemma {:induction false} ReadUntilOutcome(buf: string, c: Conn, delim: string, cap: Option<nat>)
    requires ValidConn(c) && (cap.Some? ==> |buf| <= cap.value)
    ensures var r, all := ReadUntil(buf, c, delim, cap), buf + Bytes(c);
      && r.buf + Bytes(r.conn) == all && r.conn.end == c.end && (cap.Some? ==> |r.buf| <= cap.value)
      && (r.ec == Success <==> Find(r.buf, delim) >= 0)
      && (r.ec == Success <==> Find(Fitting(all, cap), delim) >= 0)
      && (r.ec == NotFound <==> Find(Fitting(all, cap), delim) < 0 && cap.Some? && |all| >= cap.value)
      && (r.ec != Success && r.ec != NotFound ==> r.ec == c.end && r.buf == all)
    decreases |c.pieces|, if c.pieces == [] then 0 else |c.pieces[0]|
  {
    var all := buf + Bytes(c);
    var fit := Fitting(all, cap);
    assert buf <= fit;
    if Find(buf, delim) >= 0 {
      OccursInPrefix(buf, fit, delim, Find(buf, delim));
    } else if cap.Some? && |buf| >= cap.value {
      assert fit == buf;
    } else if c.pieces == [] {
      assert all == buf;
    } else {
      var piece := c.pieces[0];
      if cap.Some? && |buf| + |piece| > cap.value {
        var room := cap.value - |buf|;
        var c' := c.(pieces := [piece[room..]] + c.pieces[1..]);
        assert c'.pieces[1..] == c.pieces[1..];
        assert piece[..room] + piece[room..] == piece;
        assert (buf + piece[..room]) + Bytes(c') == all;
        ReadUntilOutcome(buf + piece[..room], c', delim, cap);
      } else {
        var c' := c.(pieces := c.pieces[1..]);
        assert (buf + piece) + Bytes(c') == all;
        ReadUntilOutcome(buf + piece, c', delim, cap);
      }
    }
  }
}
