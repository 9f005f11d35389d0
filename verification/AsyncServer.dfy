// The asynchronous TCP server of 004_server/002_async_tcp_server.cpp.
//
// The acceptor is a small-step system: completions of async_accept are handled by any pool thread, and
// Stop stores the flag from another thread at any moment. A Service is an object that deletes itself.
module AsyncServer {
  import opened Errors
  import opened Wrappers

  type Tid = nat

  // ---- Acceptor, lines 84-114 ----

  // The statement of OnAccept that a handler is about to execute.
  datatype At = Entry(ec: ErrorCode) | CheckStopped | InitAccept | CloseAcceptor

  datatype Acceptor = Acceptor(
    pending: nat,            // async_accept operations in flight
    handlers: map<Tid, At>,  // the threads that run OnAccept
    stopped: bool, closed: bool,
    // history: services created, services created and accepts started since the flag was stored
    services: nat, servicesAfterStop: nat, acceptsAfterStop: nat)

  datatype Action = Accepted(t: Tid, ec: ErrorCode) | Advance(t: Tid) | Stop

  // After Start: listening, with the first accept in flight.
  const STARTED := Acceptor(1, map[], false, false, 0, 0, 0)

  predicate Enabled(a: Acceptor, x: Action) {
    match x
    case Accepted(t, _) => a.pending > 0 && t !in a.handlers
    case Advance(t) => t in a.handlers
    case Stop => true
  }

  function Step(a: Acceptor, x: Action): Acceptor
    requires Enabled(a, x)
  {
    match x
    case Stop => a.(stopped := true)
    case Accepted(t, ec) => a.(pending := a.pending - 1, handlers := a.handlers[t := Entry(ec)])
    case Advance(t) =>
      match a.handlers[t]
      case Entry(ec) =>
        var created := if ec == Success then 1 else 0;
        a.(services := a.services + created, handlers := a.handlers[t := CheckStopped],
           servicesAfterStop := a.servicesAfterStop + if a.stopped then created else 0)
      case CheckStopped => a.(handlers := a.handlers[t := if a.stopped then CloseAcceptor else InitAccept])
      case InitAccept =>
        a.(pending := a.pending + 1, handlers := a.handlers - {t},
           acceptsAfterStop := a.acceptsAfterStop + if a.stopped then 1 else 0)
      case CloseAcceptor => a.(closed := true, handlers := a.handlers - {t})
  }

  function Exec(a: Acceptor, xs: seq<Action>): Option<Acceptor>
    decreases |xs|
  {
    if xs == [] then Some(a)
    else if Enabled(a, xs[0]) then Exec(Step(a, xs[0]), xs[1..])
    else None
  }

  predicate AcceptorOk(a: Acceptor) {
    && a.pending + |a.handlers| == (if a.closed then 0 else 1)
    && (a.closed ==> a.stopped)
    && (!a.stopped ==> a.servicesAfterStop == 0 && a.acceptsAfterStop == 0)
    && a.servicesAfterStop <= 1 && a.acceptsAfterStop <= 1
    // whoever can still create a service, or start an accept, is the first to do so since the stop
    && (a.pending > 0 ==> a.servicesAfterStop == 0)
    && (forall t | t in a.handlers && (a.handlers[t].Entry? || a.handlers[t].InitAccept?) :: a.servicesAfterStop == 0)
    && (forall t | t in a.handlers && a.handlers[t].InitAccept? :: a.acceptsAfterStop == 0)
    && (forall t | t in a.handlers && a.handlers[t].CloseAcceptor? :: a.stopped)
  }

  lemma OnlyHandler(a: Acceptor, t: Tid)
    requires AcceptorOk(a) && t in a.handlers
    ensures a.handlers.Keys == {t} && a.pending == 0 && !a.closed
  {
    assert |a.handlers.Keys - {t}| == 0;
  }

  lemma OkKept(a: Acceptor, x: Action)
    requires AcceptorOk(a) && Enabled(a, x)
    ensures AcceptorOk(Step(a, x))
  {
    if x.Advance? {
      OnlyHandler(a, x.t);
      assert (a.handlers - {x.t}).Keys == {};
    } else if x.Accepted? {
      assert a.handlers.Keys == {};
    }
  }

  lemma {:induction false} OkAlong(a: Acceptor, xs: seq<Action>)
    requires AcceptorOk(a) && Exec(a, xs).Some?
    ensures AcceptorOk(Exec(a, xs).value)
    decreases |xs|
  {
    if xs != [] {
      OkKept(a, xs[0]);
      OkAlong(Step(a, xs[0]), xs[1..]);
    }
  }

  // Until the acceptor is closed exactly one accept is in flight or being handled, in every interleaving;
  // since the flag was stored at most one service has been created and at most one accept started.
  lemma AcceptStopProtocol(xs: seq<Action>, a: Acceptor)
    requires Exec(STARTED, xs) == Some(a)
    ensures !a.closed ==> a.pending + |a.handlers| == 1
    ensures a.closed ==> a.stopped && a.pending == 0 && a.handlers == map[]
    ensures a.servicesAfterStop <= 1 && a.acceptsAfterStop <= 1
  {
    OkAlong(STARTED, xs);
  }

  // After the close nothing happens any more: no accept starts and no service is created.
  lemma {:induction false} ClosedIsFinal(a: Acceptor, xs: seq<Action>)
    requires AcceptorOk(a) && a.closed && Exec(a, xs).Some?
    ensures Exec(a, xs).value == a
    decreases |xs|
  {
    if xs != [] {
      assert a.handlers == map[];
      ClosedIsFinal(Step(a, xs[0]), xs[1..]);
    }
  }

  // ---- One service for each connection ----

  function Connections(xs: seq<Action>): nat {
    if xs == [] then 0
    else (if xs[0].Accepted? && xs[0].ec == Success then 1 else 0) + Connections(xs[1..])
  }

  // Connections whose handler has not come to the service yet.
  function Unserved(a: Acceptor): nat {
    |set t | t in a.handlers && a.handlers[t] == Entry(Success)|
  }

  lemma UnservedIs(a: Acceptor, t: Tid)
    requires a.handlers.Keys == {t}
    ensures Unserved(a) == if a.handlers[t] == Entry(Success) then 1 else 0
  {
    var waiting := set u | u in a.handlers && a.handlers[u] == Entry(Success);
    assert forall u :: u in a.handlers <==> u in a.handlers.Keys;
    assert waiting == if a.handlers[t] == Entry(Success) then {t} else {};
  }

  lemma NoneUnserved(a: Acceptor)
    requires a.handlers == map[]
    ensures Unserved(a) == 0
  {
    assert (set u | u in a.handlers && a.handlers[u] == Entry(Success)) == {};
  }

  lemma ServiceStep(a: Acceptor, x: Action)
    requires AcceptorOk(a) && Enabled(a, x)
    ensures var a1 := Step(a, x);
      a1.services + Unserved(a1) == a.services + Unserved(a) + if x.Accepted? && x.ec == Success then 1 else 0
  {
    var a1 := Step(a, x);
    if x.Accepted? {
      assert |a.handlers| == 0 && a.handlers == map[];
      NoneUnserved(a);
      UnservedIs(a1, x.t);
    } else if x.Advance? {
      OnlyHandler(a, x.t);
      UnservedIs(a, x.t);
      if x.t in a1.handlers {
        assert a1.handlers.Keys == {x.t};
        UnservedIs(a1, x.t);
      } else {
        assert a1.handlers.Keys == {};
        assert a1.handlers == map[];
        NoneUnserved(a1);
      }
    } else {
      assert a1.handlers == a.handlers;
    }
  }

  lemma {:induction false} ServicesAlong(a: Acceptor, xs: seq<Action>)
    requires AcceptorOk(a) && Exec(a, xs).Some?
    ensures var b := Exec(a, xs).value; b.services + Unserved(b) == a.services + Unserved(a) + Connections(xs)
    decreases |xs|
  {
    if xs != [] {
      ServiceStep(a, xs[0]);
      OkKept(a, xs[0]);
      ServicesAlong(Step(a, xs[0]), xs[1..]);
    }
  }

  // In every run a service is created for each accepted connection, and for nothing else, but for the one whose
  // handler has not come that far.
  lemma OneServicePerConnection(xs: seq<Action>, a: Acceptor)
    requires Exec(STARTED, xs) == Some(a)
    ensures a.services + Unserved(a) == Connections(xs)
  {
    NoneUnserved(STARTED);
    ServicesAlong(STARTED, xs);
  }

  // ---- After the stop ----

  lemma ExecCons(a: Acceptor, x: Action, xs: seq<Action>) returns (ys: seq<Action>)
    requires Enabled(a, x) && Exec(Step(a, x), xs).Some?
    ensures Exec(a, ys) == Exec(Step(a, x), xs)
  {
    ys := [x] + xs;
    assert ys[1..] == xs;
  }

  // The bound is reached: Stop while a connection is being awaited lets one more service in, and only that
  // connection makes the acceptor close.
  lemma OneServiceAfterStop() returns (xs: seq<Action>, a: Acceptor)
    ensures Exec(STARTED, xs) == Some(a) && a.closed && a.servicesAfterStop == 1
  {
    var a1 := Step(STARTED, Stop);
    var a2 := Step(a1, Accepted(0, Success));
    var a3 := Step(a2, Advance(0));
    var a4 := Step(a3, Advance(0));
    a := Step(a4, Advance(0));
    xs := ExecCons(a4, Advance(0), []);
    xs := ExecCons(a3, Advance(0), xs);
    xs := ExecCons(a2, Advance(0), xs);
    xs := ExecCons(a1, Accepted(0, Success), xs);
    xs := ExecCons(STARTED, Stop, xs);
  }

  // So is the bound on the accepts: Stop between the check and the accept.
  lemma OneAcceptAfterStop() returns (xs: seq<Action>, a: Acceptor)
    ensures Exec(STARTED, xs) == Some(a) && a.stopped && a.pending == 1 && a.acceptsAfterStop == 1
  {
    var a1 := Step(STARTED, Accepted(0, Aborted));
    var a2 := Step(a1, Advance(0));
    var a3 := Step(a2, Advance(0));
    var a4 := Step(a3, Stop);
    a := Step(a4, Advance(0));
    xs := ExecCons(a4, Advance(0), []);
    xs := ExecCons(a3, Stop, xs);
    xs := ExecCons(a2, Advance(0), xs);
    xs := ExecCons(a1, Advance(0), xs);
    xs := ExecCons(STARTED, Accepted(0, Aborted), xs);
  }

  // ---- Service, lines 17-60 ----

  const RESPONSE: string := "Response\n"

  datatype Op = ReadRequest | WriteResponse

  datatype Session = Session(request: string, response: string, pending: Option<Op>, sent: seq<string>, deletes: nat)

  const STARTED_SESSION := Session("", "", Some(ReadRequest), [], 0)

  // The handler of the pending operation, which completes with ec and leaves buf in the request buffer.
  function Complete(s: Session, ec: ErrorCode, buf: string): Session
    requires s.pending.Some?
  {
    match s.pending.value
    case ReadRequest =>
      if ec != Success then s.(request := buf, pending := None, deletes := s.deletes + 1)
      else s.(request := buf, response := RESPONSE, pending := Some(WriteResponse), sent := s.sent + [RESPONSE])
    case WriteResponse => s.(pending := None, deletes := s.deletes + 1)
  }

  datatype Completion = Completion(ec: ErrorCode, buf: string)

  function Run(s: Session, completions: seq<Completion>): Session
    decreases |completions|
  {
    if completions == [] then s
    else Run(if s.pending.Some? then Complete(s, completions[0].ec, completions[0].buf) else s, completions[1..])
  }

  // After n completions of a service: one operation in flight until it has deleted itself, which it does
  // exactly once, after the failed read or after the write of its one response.
  lemma ServiceDeletesItself(completions: seq<Completion>)
    ensures var s, n := Run(STARTED_SESSION, completions), |completions|;
      && (if s.pending.Some? then 1 else 0) + s.deletes == 1
      && (n >= 2 ==> s.deletes == 1)
      && s.sent == (if n >= 1 && completions[0].ec == Success then ["Response\n"] else [])
      && s.request == (if n >= 1 then completions[0].buf else "")
  {
    if |completions| >= 1 {
      var s1 := Complete(STARTED_SESSION, completions[0].ec, completions[0].buf);
      assert STARTED_SESSION.sent + [RESPONSE] == [RESPONSE];
      if |completions| >= 2 {
        var rest := completions[1..];
        var s2 := if s1.pending.Some? then Complete(s1, rest[0].ec, rest[0].buf) else s1;
        DeletedStays(s2, rest[1..]);
      }
    }
  }

  lemma {:induction false} DeletedStays(s: Session, completions: seq<Completion>)
    requires s.pending == None
    ensures Run(s, completions) == s
    decreases |completions|
  {
    if completions != [] {
      DeletedStays(s, completions[1..]);
    }
  }

  class Service {
    var request: string
    var response: string
    // history
    var pending: Option<Op>
    var sent: seq<string>
    var deletes: nat

    function View(): Session
      reads this
    {
      Session(request, response, pending, sent, deletes)
    }

    // No member is touched after `delete this`: every method that reads or writes one requires this.
    predicate Alive()
      reads this
    {
      deletes == 0
    }

    constructor ()
      ensures View() == STARTED_SESSION.(pending := None)
    {
      request, response, pending, sent, deletes := "", "", None, [], 0;
    }

    method StartHandling()
      requires Alive()
      modifies this
      ensures View() == old(View()).(pending := Some(ReadRequest))
    {
      pending := Some(ReadRequest);
    }

    method OnRequestReceived(ec: ErrorCode, bytes: string)
      requires Alive() && pending == Some(ReadRequest)
      modifies this
      ensures View() == Complete(old(View()), ec, bytes)
    {
      pending, request := None, bytes;
      if ec != Success {
        OnFinish();
        return;
      }
      response := ProcessRequest(request);
      pending, sent := Some(WriteResponse), sent + [response];
    }

    method ProcessRequest(request: string) returns (response: string)
      ensures response == "Response\n"
    {
      response := "Response\n";
    }

    method OnResponseSent(ec: ErrorCode)
      requires Alive() && pending == Some(WriteResponse)
      modifies this
      ensures View() == Complete(old(View()), ec, old(request))
    {
      pending := None;
      OnFinish();
    }

    method OnFinish()
      requires Alive()
      modifies this
      ensures View() == old(View()).(deletes := old(deletes) + 1) && !Alive()
    {
      deletes := deletes + 1;
    }
  }

  // The object driven by the io_service: nothing is called after the delete.
  method RunService(service: Service, completions: seq<Completion>)
    requires service.pending.Some? ==> service.Alive()
    modifies service
    ensures service.View() == Run(old(service.View()), completions)
  {
    var i := 0;
    while i < |completions| && service.pending.Some?
      invariant i <= |completions| && (service.pending.Some? ==> service.Alive())
      invariant Run(service.View(), completions[i..]) == Run(old(service.View()), completions)
    {
      if service.pending == Some(ReadRequest) {
        service.OnRequestReceived(completions[i].ec, completions[i].buf);
      } else {
        service.OnResponseSent(completions[i].ec);
      }
      assert completions[i..][1..] == completions[i + 1..];
      i := i + 1;
    }
    if service.pending == None {
      DeletedStays(service.View(), completions[i..]);
    }
  }
}
