// The half-close exchange of 002_io/007_shutdown_client.cpp and 002_io/008_shutdown_server.cpp over two
// channels that hold at most `capacity` bytes each.
//
// asio::write moves any positive number of bytes that fit, until all are written; asio::read takes any
// positive number of bytes that are there, until it sees the end of the stream, which is reported when the
// channel is empty and its sender has shut down.
module HalfClose {
  import opened Wrappers

  datatype Setup = Setup(request: string, response: string, capacity: nat)

  datatype State = State(
    written: nat, toServer: string, clientShut: bool,   // the client's write and shutdown_send
    requestBuf: string, serverEof: bool,                // the server's read
    answered: nat, toClient: string, serverShut: bool,  // the server's write and shutdown_send
    responseBuf: string, clientEof: bool)               // the client's read

  const INITIAL := State(0, "", false, "", false, 0, "", false, "", false)

  datatype Action =
    | ClientWrite(n: nat) | ClientShutdown | ClientRead(n: nat) | ClientEof
    | ServerRead(n: nat) | ServerEof | ServerWrite(n: nat) | ServerShutdown

  // Each side's operations come in the order of its program.
  predicate Enabled(c: Setup, s: State, a: Action) {
    match a
    case ClientWrite(n) => 1 <= n <= |c.request| - s.written && |s.toServer| + n <= c.capacity
    case ClientShutdown => s.written == |c.request| && !s.clientShut
    case ClientRead(n) => s.clientShut && !s.clientEof && 1 <= n <= |s.toClient|
    case ClientEof => s.clientShut && !s.clientEof && s.toClient == "" && s.serverShut
    case ServerRead(n) => !s.serverEof && 1 <= n <= |s.toServer|
    case ServerEof => !s.serverEof && s.toServer == "" && s.clientShut
    case ServerWrite(n) => s.serverEof && 1 <= n <= |c.response| - s.answered && |s.toClient| + n <= c.capacity
    case ServerShutdown => s.serverEof && s.answered == |c.response| && !s.serverShut
  }

  function Step(c: Setup, s: State, a: Action): State
    requires Enabled(c, s, a)
  {
    match a
    case ClientWrite(n) => s.(written := s.written + n, toServer := s.toServer + c.request[s.written..s.written + n])
    case ClientShutdown => s.(clientShut := true)
    case ClientRead(n) => s.(toClient := s.toClient[n..], responseBuf := s.responseBuf + s.toClient[..n])
    case ClientEof => s.(clientEof := true)
    case ServerRead(n) => s.(toServer := s.toServer[n..], requestBuf := s.requestBuf + s.toServer[..n])
    case ServerEof => s.(serverEof := true)
    case ServerWrite(n) =>
      s.(answered := s.answered + n, toClient := s.toClient + c.response[s.answered..s.answered + n])
    case ServerShutdown => s.(serverShut := true)
  }

  function Exec(c: Setup, s: State, xs: seq<Action>): Option<State>
    decreases |xs|
  {
    if xs == [] then Some(s)
    else if Enabled(c, s, xs[0]) then Exec(c, Step(c, s, xs[0]), xs[1..])
    else None
  }

  predicate Finished(s: State) {
    s.clientEof && s.serverShut
  }

  // One direction: what was sent of the message is what was received and what is still on its way.
  predicate Carried(message: string, sent: nat, channel: string, received: string, capacity: nat) {
    sent <= |message| && received + channel == message[..sent] && |channel| <= capacity
  }

  lemma SendKeeps(message: string, sent: nat, channel: string, received: string, capacity: nat, n: nat)
    requires Carried(message, sent, channel, received, capacity)
    requires n <= |message| - sent && |channel| + n <= capacity
    ensures Carried(message, sent + n, channel + message[sent..sent + n], received, capacity)
  {
    assert message[..sent] + message[sent..sent + n] == message[..sent + n];
  }

  lemma TakeKeeps(message: string, sent: nat, channel: string, received: string, capacity: nat, n: nat)
    requires Carried(message, sent, channel, received, capacity) && n <= |channel|
    ensures Carried(message, sent, channel[n..], received + channel[..n], capacity)
  {
    assert channel[..n] + channel[n..] == channel;
  }

  lemma AllTaken(message: string, received: string, capacity: nat)
    requires Carried(message, |message|, "", received, capacity)
    ensures received == message
  {
    assert received + "" == received && message[..|message|] == message;
  }

  // No byte is lost, duplicated or reordered, and each eof comes after all the bytes.
  predicate Ok(c: Setup, s: State) {
    && Carried(c.request, s.written, s.toServer, s.requestBuf, c.capacity)
    && Carried(c.response, s.answered, s.toClient, s.responseBuf, c.capacity)
    && (s.clientShut ==> s.written == |c.request|)
    && (s.serverEof ==> s.clientShut && s.toServer == "" && s.requestBuf == c.request)
    && (s.answered > 0 || s.serverShut ==> s.serverEof)
    && (s.serverShut ==> s.answered == |c.response|)
    && (s.clientEof ==> s.serverShut && s.toClient == "" && s.responseBuf == c.response)
  }

  lemma OkKept(c: Setup, s: State, a: Action)
    requires Ok(c, s) && Enabled(c, s, a)
    ensures Ok(c, Step(c, s, a))
  {
    match a
    case ClientWrite(n) => SendKeeps(c.request, s.written, s.toServer, s.requestBuf, c.capacity, n);
    case ServerWrite(n) => SendKeeps(c.response, s.answered, s.toClient, s.responseBuf, c.capacity, n);
    case ServerRead(n) => TakeKeeps(c.request, s.written, s.toServer, s.requestBuf, c.capacity, n);
    case ClientRead(n) => TakeKeeps(c.response, s.answered, s.toClient, s.responseBuf, c.capacity, n);
    case ServerEof => AllTaken(c.request, s.requestBuf, c.capacity);
    case ClientEof => AllTaken(c.response, s.responseBuf, c.capacity);
    case _ =>
  }

  function Measure(c: Setup, s: State): int {
    2 * (|c.request| - s.written) + |s.toServer| + 2 * (|c.response| - s.answered) + |s.toClient|
    + (if s.clientShut then 0 else 1) + (if s.serverEof then 0 else 1)
    + (if s.serverShut then 0 else 1) + (if s.clientEof then 0 else 1)
  }

  lemma MeasureDrops(c: Setup, s: State, a: Action)
    requires Ok(c, s) && Enabled(c, s, a)
    ensures 0 <= Measure(c, Step(c, s, a)) < Measure(c, s)
  {
    OkKept(c, s, a);
  }

  lemma {:induction false} OkAlong(c: Setup, s: State, xs: seq<Action>)
    requires Ok(c, s) && Exec(c, s, xs).Some?
    ensures Ok(c, Exec(c, s, xs).value)
    ensures |xs| + Measure(c, Exec(c, s, xs).value) <= Measure(c, s)
    decreases |xs|
  {
    if xs != [] {
      OkKept(c, s, xs[0]);
      MeasureDrops(c, s, xs[0]);
      OkAlong(c, Step(c, s, xs[0]), xs[1..]);
    }
  }

  // For all message lengths and any capacity of at least one byte: while the exchange is not finished some
  // side can go on, no run is longer than the bound, and what each side has received is always a prefix of
  // what the other side sends, and all of it once it has seen eof.
  lemma ExchangeCompletes(c: Setup, xs: seq<Action>, s: State)
    requires c.capacity >= 1 && Exec(c, INITIAL, xs) == Some(s)
    ensures !Finished(s) ==> exists a :: Enabled(c, s, a)
    ensures |xs| <= 2 * |c.request| + 2 * |c.response| + 4
    ensures s.requestBuf <= c.request && s.responseBuf <= c.response
    ensures Finished(s) ==> s.requestBuf == c.request && s.responseBuf == c.response && s.serverEof
  {
    OkAlong(c, INITIAL, xs);
    assert c.request[..s.written] <= c.request && c.response[..s.answered] <= c.response;
    if !Finished(s) {
      var a := NextMove(c, s);
    }
  }

  lemma NextMove(c: Setup, s: State) returns (a: Action)
    requires Ok(c, s) && c.capacity >= 1 && !Finished(s)
    ensures Enabled(c, s, a)
  {
    if !s.serverEof {
      a := if s.toServer != "" then ServerRead(1)
           else if s.written < |c.request| then ClientWrite(1)
           else if !s.clientShut then ClientShutdown
           else ServerEof;
    } else {
      a := if s.toClient != "" then ClientRead(1)
           else if s.answered < |c.response| then ServerWrite(1)
           else if !s.serverShut then ServerShutdown
           else ClientEof;
    }
  }
}
