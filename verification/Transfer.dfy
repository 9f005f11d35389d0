// Resumable transfer with short counts: the loops of 002_io/004_buffer_write.cpp and
// 002_io/005_buffer_read.cpp, and the callback chains of 002_io/004-2_buffer_write_async.cpp and
// 002_io/005-2_buffer_read_async.cpp.
//
// One operation moves any positive number of bytes, up to what it was offered and, when reading, up to
// what has arrived. Buffers of any length are allowed where the programs use one length.
module Transfer {
  import opened Errors
  import opened Wrappers

  class Socket {
    var outgoing: string  // everything written so far
    var incoming: string  // everything that will still arrive before the end of the stream
    var failures: seq<ErrorCode>  // history: the errors of the operations that failed

    constructor (incoming: string)
      ensures outgoing == "" && this.incoming == incoming && failures == []
    {
      outgoing, this.incoming, failures := "", incoming, [];
    }

    // An operation may fail at any time, and then moves nothing.
    method WriteSome(bytes: string) returns (ec: ErrorCode, n: nat)
      modifies this`outgoing, this`failures
      ensures failures == old(failures) + (if ec == Success then [] else [ec])
      ensures ec == Success && bytes != "" ==> 1 <= n
      ensures ec != Success ==> n == 0
      ensures n <= |bytes| && outgoing == old(outgoing) + bytes[..n]
    {
      ec, n := Success, 0;
      if * {
        ec :| ec != Success;
      } else if bytes != "" {
        n :| 1 <= n <= |bytes|;
      }
      outgoing := outgoing + bytes[..n];
      failures := failures + if ec == Success then [] else [ec];
    }

    // Fills buf from offset on. Without a byte to come the operation reports the end of the stream.
    method ReadSome(buf: array<char>, offset: nat) returns (ec: ErrorCode, n: nat)
      requires offset <= buf.Length
      modifies this`incoming, this`failures, buf
      ensures failures == old(failures) + (if ec == Success then [] else [ec])
      ensures n <= buf.Length - offset && n <= |old(incoming)|
      ensures ec == Success && offset < buf.Length ==> 1 <= n
      ensures ec == Eof ==> offset < buf.Length && old(incoming) == ""
      ensures ec != Success ==> n == 0
      ensures buf[..offset] == old(buf[..offset]) && buf[offset..offset + n] == old(incoming)[..n]
      ensures incoming == old(incoming)[n..]
    {
      ec, n := Success, 0;
      if * {
        ec :| ec != Success && ec != Eof;
      } else if offset < buf.Length && incoming == "" {
        ec := Eof;
      } else if offset < buf.Length {
        n :| 1 <= n <= buf.Length - offset && n <= |incoming|;
        forall k | 0 <= k < n {
          buf[offset + k] := incoming[k];
        }
        incoming := incoming[n..];
      }
      failures := failures + if ec == Success then [] else [ec];
    }
  }

  // ---- The synchronous loops ----

  // Everything is written, once and in order, whatever the short counts, unless an operation fails (`ec`, which
  // write_some throws); then what was written before.
  method WriteToSocket(sock: Socket, buf: string) returns (ec: ErrorCode, offset: nat)
    modifies sock`outgoing, sock`failures
    ensures sock.failures == old(sock.failures) + (if ec == Success then [] else [ec])
    ensures offset <= |buf| && sock.outgoing == old(sock.outgoing) + buf[..offset]
    ensures ec == Success ==> offset == |buf| && sock.outgoing == old(sock.outgoing) + buf
  {
    ec, offset := Success, 0;
    while offset != |buf|
      invariant sock.failures == old(sock.failures)
      invariant offset <= |buf| && sock.outgoing == old(sock.outgoing) + buf[..offset]
      decreases |buf| - offset
    {
      var n;
      ec, n := sock.WriteSome(buf[offset..]);
      if ec != Success {
        return;
      }
      assert buf[..offset] + buf[offset..][..n] == buf[..offset + n];
      offset := offset + n;
    }
    ec := Success;
  }

  // The buffer is filled with the next bytes of the stream; unless another error is thrown (`ec`), it is filled
  // iff that many bytes come before the end of the stream. What came before an error is in the buffer.
  method ReadFromSocket(sock: Socket, buf: array<char>) returns (ec: ErrorCode, offset: nat)
    modifies sock`incoming, sock`failures, buf
    ensures sock.failures == old(sock.failures) + (if ec == Success then [] else [ec])
    ensures offset <= buf.Length && offset <= |old(sock.incoming)|
    ensures buf[..offset] == old(sock.incoming)[..offset] && sock.incoming == old(sock.incoming)[offset..]
    ensures ec == Success ==> offset == buf.Length
    ensures ec == Eof ==> offset == |old(sock.incoming)|
    ensures ec == Success || ec == Eof ==> (ec == Success <==> buf.Length <= |old(sock.incoming)|)
  {
    ec, offset := Success, 0;
    while offset != buf.Length
      invariant sock.failures == old(sock.failures)
      invariant offset <= buf.Length && offset <= |old(sock.incoming)|
      invariant buf[..offset] == old(sock.incoming)[..offset] && sock.incoming == old(sock.incoming)[offset..]
      decreases buf.Length - offset
    {
      var n;
      ec, n := sock.ReadSome(buf, offset);
      if ec != Success {
        return;
      }
      assert buf[..offset + n] == buf[..offset] + buf[offset..offset + n];
      offset := offset + n;
    }
    ec := Success;
  }

  // ---- The callback chains ----

  // What one completion does to the total, and whether another operation is started.
  function Total(total: nat, ec: ErrorCode, n: nat): nat {
    if ec == Success then total + n else total
  }

  predicate Rearms(total: nat, ec: ErrorCode, length: nat) {
    ec == Success && total != length
  }

  class WriteSession {
    const sock: Socket
    const buf: string
    var totalBytesWritten: nat
    var armed: bool  // an async_write_some is in flight

    constructor (sock: Socket, buf: string)
      ensures this.sock == sock && this.buf == buf && totalBytesWritten == 0 && armed
    {
      this.sock, this.buf, totalBytesWritten, armed := sock, buf, 0, true;
    }

    method Callback(ec: ErrorCode, bytesTransferred: nat)
      requires armed
      modifies this
      ensures totalBytesWritten == Total(old(totalBytesWritten), ec, bytesTransferred)
      ensures armed <==> Rearms(totalBytesWritten, ec, |buf|)
    {
      armed := false;
      if ec != Success {
        return;
      }
      totalBytesWritten := totalBytesWritten + bytesTransferred;
      if totalBytesWritten == |buf| {
        return;
      }
      armed := true;
    }
  }

  // The chain, driven by the io_service, writes exactly what the loop writes; `ec` is what its last operation
  // reported.
  method WriteToSocketAsync(sock: Socket, buf: string) returns (s: WriteSession, ec: ErrorCode)
    modifies sock`outgoing, sock`failures
    ensures sock.failures == old(sock.failures) + (if ec == Success then [] else [ec])
    ensures fresh(s) && s.sock == sock && s.buf == buf && !s.armed
    ensures s.totalBytesWritten <= |buf| && sock.outgoing == old(sock.outgoing) + buf[..s.totalBytesWritten]
    ensures ec == Success ==> s.totalBytesWritten == |buf| && sock.outgoing == old(sock.outgoing) + buf
  {
    s := new WriteSession(sock, buf);
    ec := Success;
    while s.armed
      invariant sock.failures == old(sock.failures) + (if ec == Success then [] else [ec])
      invariant s.armed ==> ec == Success
      invariant s.totalBytesWritten <= |buf| && (s.armed || ec != Success || s.totalBytesWritten == |buf|)
      invariant s.armed && buf != "" ==> s.totalBytesWritten < |buf|
      invariant sock.outgoing == old(sock.outgoing) + buf[..s.totalBytesWritten]
      decreases |buf| - s.totalBytesWritten, s.armed
    {
      var n;
      ec, n := sock.WriteSome(buf[s.totalBytesWritten..]);
      assert buf[..s.totalBytesWritten] + buf[s.totalBytesWritten..][..n] == buf[..s.totalBytesWritten + n];
      s.Callback(ec, n);
    }
  }

  class ReadSession {
    const sock: Socket
    const buf: array<char>
    var totalBytesRead: nat
    var armed: bool  // an async_read_some is in flight

    constructor (sock: Socket, buf: array<char>)
      ensures this.sock == sock && this.buf == buf && totalBytesRead == 0 && armed
    {
      this.sock, this.buf, totalBytesRead, armed := sock, buf, 0, true;
    }

    method Callback(ec: ErrorCode, bytesTransferred: nat)
      requires armed
      modifies this
      ensures totalBytesRead == Total(old(totalBytesRead), ec, bytesTransferred)
      ensures armed <==> Rearms(totalBytesRead, ec, buf.Length)
    {
      armed := false;
      if ec != Success {
        return;
      }
      totalBytesRead := totalBytesRead + bytesTransferred;
      if totalBytesRead == buf.Length {
        return;
      }
      armed := true;
    }
  }

  // The chain fills the buffer with exactly what the loop fills it with.
  method ReadFromSocketAsync(sock: Socket, buf: array<char>) returns (s: ReadSession, ec: ErrorCode)
    modifies sock`incoming, sock`failures, buf
    ensures sock.failures == old(sock.failures) + (if ec == Success then [] else [ec])
    ensures fresh(s) && s.sock == sock && s.buf == buf && !s.armed
    ensures s.totalBytesRead <= buf.Length && s.totalBytesRead <= |old(sock.incoming)|
    ensures buf[..s.totalBytesRead] == old(sock.incoming)[..s.totalBytesRead]
    ensures sock.incoming == old(sock.incoming)[s.totalBytesRead..]
    ensures ec == Success ==> s.totalBytesRead == buf.Length
    ensures ec == Eof ==> s.totalBytesRead == |old(sock.incoming)|
    ensures ec == Success || ec == Eof ==> (ec == Success <==> buf.Length <= |old(sock.incoming)|)
  {
    s := new ReadSession(sock, buf);
    ec := Success;
    while s.armed
      invariant sock.failures == old(sock.failures) + (if ec == Success then [] else [ec])
      invariant s.armed ==> ec == Success
      invariant s.totalBytesRead <= buf.Length && s.totalBytesRead <= |old(sock.incoming)|
      invariant s.armed && buf.Length > 0 ==> s.totalBytesRead < buf.Length
      invariant !s.armed && ec == Success ==> s.totalBytesRead == buf.Length
      invariant ec == Eof ==> s.totalBytesRead == |old(sock.incoming)| < buf.Length
      invariant buf[..s.totalBytesRead] == old(sock.incoming)[..s.totalBytesRead]
      invariant sock.incoming == old(sock.incoming)[s.totalBytesRead..]
      decreases buf.Length - s.totalBytesRead, s.armed
    {
      var n;
      ec, n := sock.ReadSome(buf, s.totalBytesRead);
      assert buf[..s.totalBytesRead + n] == buf[..s.totalBytesRead] + buf[s.totalBytesRead..s.totalBytesRead + n];
      s.Callback(ec, n);
    }
  }

  // ---- A writer chain and a reader chain joined by a FIFO, in every interleaving ----

  datatype Pair = Pair(
    written: nat, writing: bool,   // the writer's total, and whether its operation is in flight
    fifo: string,
    filled: string, reading: bool) // the filled part of the reader's buffer

  datatype Event = Wrote(ec: ErrorCode, n: nat) | Got(ec: ErrorCode, n: nat)

  const STARTED := Pair(0, true, "", "", true)

  // What one operation may report: a short count of what it was offered, or any error.
  predicate Enabled(buf: string, size: nat, p: Pair, ev: Event) {
    match ev
    case Wrote(ec, n) => p.writing && (ec == Success ==> n <= |buf| - p.written && (n == 0 ==> p.written == |buf|))
    case Got(ec, n) =>
      p.reading && (ec == Success ==> n <= |p.fifo| && n <= size - |p.filled| && (n == 0 ==> |p.filled| == size))
  }

  function Step(buf: string, size: nat, p: Pair, ev: Event): Pair
    requires Enabled(buf, size, p, ev)
  {
    match ev
    case Wrote(ec, n) =>
      var total := Total(p.written, ec, n);
      p.(written := total, writing := Rearms(total, ec, |buf|),
         fifo := if ec == Success then p.fifo + buf[p.written..total] else p.fifo)
    case Got(ec, n) =>
      var total := Total(|p.filled|, ec, n);
      p.(filled := if ec == Success then p.filled + p.fifo[..n] else p.filled, reading := Rearms(total, ec, size),
         fifo := if ec == Success then p.fifo[n..] else p.fifo)
  }

  function Exec(buf: string, size: nat, p: Pair, evs: seq<Event>): Option<Pair>
    decreases |evs|
  {
    if evs == [] then Some(p)
    else if Enabled(buf, size, p, evs[0]) then Exec(buf, size, Step(buf, size, p, evs[0]), evs[1..])
    else None
  }

  predicate PairOk(buf: string, size: nat, p: Pair) {
    p.written <= |buf| && |p.filled| <= size && p.filled + p.fifo == buf[..p.written]
  }

  lemma {:induction false} PairAlong(buf: string, size: nat, p: Pair, evs: seq<Event>)
    requires PairOk(buf, size, p) && Exec(buf, size, p, evs).Some?
    ensures PairOk(buf, size, Exec(buf, size, p, evs).value)
    decreases |evs|
  {
    if evs != [] {
      PairKept(buf, size, p, evs[0]);
      PairAlong(buf, size, Step(buf, size, p, evs[0]), evs[1..]);
    }
  }

  lemma PairKept(buf: string, size: nat, p: Pair, ev: Event)
    requires PairOk(buf, size, p) && Enabled(buf, size, p, ev)
    ensures PairOk(buf, size, Step(buf, size, p, ev))
  {
    match ev
    case Wrote(ec, n) =>
      if ec == Success {
        assert buf[..p.written] + buf[p.written..p.written + n] == buf[..p.written + n];
      }
    case Got(ec, n) =>
      if ec == Success {
        assert p.fifo[..n] + p.fifo[n..] == p.fifo;
      }
  }

  // ---- Without errors both sides come to their end ----

  predicate NoErrors(evs: seq<Event>) {
    forall i | 0 <= i < |evs| :: evs[i].ec == Success
  }

  // What is left to move, twice for the writer's side, and the operations in flight.
  function Measure(buf: string, p: Pair): int {
    2 * (|buf| - p.written) + |p.fifo| + (if p.writing then 1 else 0) + (if p.reading then 1 else 0)
  }

  lemma MeasureDrops(buf: string, size: nat, p: Pair, ev: Event)
    requires PairOk(buf, size, p) && Enabled(buf, size, p, ev)
    ensures 0 <= Measure(buf, Step(buf, size, p, ev)) < Measure(buf, p)
  {
    PairKept(buf, size, p, ev);
  }

  // A side that has no operation in flight is done.
  predicate DoneIfIdle(buf: string, size: nat, p: Pair) {
    (!p.writing ==> p.written == |buf|) && (!p.reading ==> |p.filled| == size)
  }

  lemma {:induction false} RunsEnd(buf: string, size: nat, p: Pair, evs: seq<Event>)
    requires PairOk(buf, size, p) && Exec(buf, size, p, evs).Some?
    ensures |evs| + Measure(buf, Exec(buf, size, p, evs).value) <= Measure(buf, p)
    ensures NoErrors(evs) && DoneIfIdle(buf, size, p) ==> DoneIfIdle(buf, size, Exec(buf, size, p, evs).value)
    decreases |evs|
  {
    if evs != [] {
      PairKept(buf, size, p, evs[0]);
      MeasureDrops(buf, size, p, evs[0]);
      assert NoErrors(evs) ==> NoErrors(evs[1..]);
      RunsEnd(buf, size, Step(buf, size, p, evs[0]), evs[1..]);
    }
  }

  lemma NextEvent(buf: string, size: nat, p: Pair) returns (ev: Event)
    requires PairOk(buf, size, p) && DoneIfIdle(buf, size, p) && size <= |buf| && (p.writing || p.reading)
    ensures Enabled(buf, size, p, ev) && ev.ec == Success
  {
    if p.writing {
      ev := Wrote(Success, if p.written < |buf| then 1 else 0);
    } else {
      assert |p.filled + p.fifo| == |buf|;
      ev := Got(Success, if |p.filled| < size then 1 else 0);
    }
  }

  // No run is longer than the bound, with or without errors. Without errors some operation can complete until
  // both sides are done, if the reader's buffer is no longer than the writer's, and then the reader has its
  // buffer full.
  lemma TransferCompletes(buf: string, size: nat, evs: seq<Event>, p: Pair)
    requires Exec(buf, size, STARTED, evs) == Some(p)
    ensures |evs| <= 2 * |buf| + 2
    ensures NoErrors(evs) && size <= |buf| && (p.writing || p.reading) ==>
              exists ev :: Enabled(buf, size, p, ev) && ev.ec == Success
    ensures NoErrors(evs) && !p.writing && !p.reading ==> p.written == |buf| && |p.filled| == size
  {
    PairAlong(buf, size, STARTED, evs);
    RunsEnd(buf, size, STARTED, evs);
    MeasureIsNat(buf, size, p);
    if NoErrors(evs) && size <= |buf| && (p.writing || p.reading) {
      var ev := NextEvent(buf, size, p);
    }
  }

  lemma MeasureIsNat(buf: string, size: nat, p: Pair)
    requires PairOk(buf, size, p)
    ensures Measure(buf, p) >= 0
  {}

  // However the counts fall: the filled part is a prefix of the writer's buffer, no total passes its
  // length, and when both sides are done with equal lengths the buffers are equal.
  lemma ReaderFollowsWriter(buf: string, size: nat, evs: seq<Event>, p: Pair)
    requires Exec(buf, size, STARTED, evs) == Some(p)
    ensures p.written <= |buf| && |p.filled| <= size && p.filled <= buf
    ensures |p.filled| + |p.fifo| == p.written
    ensures p.written == |buf| && |p.filled| == size && size == |buf| ==> p.filled == buf && p.fifo == ""
  {
    PairAlong(buf, size, STARTED, evs);
    assert buf[..p.written] <= buf;
  }
}
