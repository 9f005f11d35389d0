// The asynchronous TCP client of 003_client/003_async_tcp_client.cpp as a small-step system.
//
// A step is one lock operation, one access to shared data, the start of an asynchronous operation, or
// the hand-over of a finished operation to a thread that is inside `m_ios.run()`. Any number of threads
// and sessions take part, and every interleaving of their steps is a run.
//
// Assumptions about the library: a started operation completes once, with any error code; the io_service
// stops only while its outstanding work is zero, and `run()` returns only after that; the user's callback
// takes no lock and does not throw; `Close` is called once (a second `join` on the same thread would throw).
module AsyncTcpClient {
  import opened Errors
  import opened Wrappers

  type Tid = nat   // a thread
  type Sid = nat   // a session object, i.e. the identity of its shared_ptr
  type RequestId = id: nat | id < 0x1_0000_0000

  datatype Op = Connect | Write | Read

  // How far a session got: which operations completed without an error. Any other order is OutOfOrder.
  datatype Progress = Nothing | Connected | Written | Answered | OutOfOrder

  function After(p: Progress, op: Op): Progress {
    if p == Nothing && op == Connect then Connected
    else if p == Connected && op == Write then Written
    else if p == Written && op == Read then Answered
    else OutOfOrder
  }

  // The first five fields are those of the C++ `Session`; the others are history variables that no step
  // ever tests.
  datatype Session = Session(
    id: RequestId, ec: ErrorCode, response: string, cancelled: bool, lock: Option<Tid>,
    registered: bool,   // inserted into the active map
    erased: bool,       // past the erase step of its own OnRequestComplete
    finds: nat,         // how often a CancelRequest found it in the map
    progress: Progress,
    calls: nat,         // how often its callback was called
    reported: ErrorCode, // the error code of the last call
    answer: Option<string>, // the line with which its read completed
    failure: Option<ErrorCode>, // the error with which one of its operations completed
    delivered: string,  // the response passed to the last call
    early: bool,        // async_connect was started before the io_service stopped
    runner: Tid)        // the thread that last worked on it

  // The statement a thread is about to execute.
  datatype At =
    | Idle
    | StartLock | StartInsert | StartUnlock | StartConnect                             // lines 81-85
    | CancelLock | CancelFind | CancelLockSession | CancelMark | CancelUnlockSession   // lines 136-143
    | CancelUnlock                                                                     // line 144
    | CloseJoin                                                                         // line 150
    | Handle | HandlerLock | HandlerCheck | HandlerUnlock                               // lines 88-131
    | CompleteLock | CompleteErase | CompleteUnlock | CompleteResult | CompleteCall     // lines 161-176

  // A thread: where it stands and its local variables. `held` says whether OnRequestComplete was entered
  // with the session's cancel lock held.
  datatype Thread = Thread(at: At, s: Sid, id: RequestId, op: Op, ec: ErrorCode, line: string, held: bool)

  const IDLE := Thread(Idle, 0, 0, Connect, Success, "", false)

  datatype State = State(
    pool: nat, threads: seq<Thread>, // threads 0..pool run the io_service, the others are the user's
    mapLock: Option<Tid>, active: map<RequestId, Sid>, sessions: seq<Session>,
    ops: map<Sid, Op>,               // operations in flight
    guard: bool, outstanding: int,   // m_work, and the io_service's count of outstanding work
    stopped: bool, exited: set<Tid>, // the io_service ran out of work; threads that left run()
    closed: bool)                    // Close has returned

  datatype Action =
    | CallStart(t: Tid, id: RequestId)
    | CallCancel(t: Tid, id: RequestId)
    | CallClose(t: Tid)
    | Dispatch(t: Tid, s: Sid, ec: ErrorCode, line: string)
    | Advance(t: Tid)
    | IosStop
    | PoolExit(t: Tid)

  function Init(pool: nat, users: nat): State {
    State(pool, seq(pool + users, _ => IDLE), None, map[], [], map[], true, 1, false, {}, false)
  }

  // ---- What a program counter says about locks and sessions ----

  predicate HasSession(at: At) {
    !(at.Idle? || at.CancelLock? || at.CancelFind? || at.CancelUnlock? || at.CloseJoin?)
  }

  predicate WaitsMap(at: At) {
    at.StartLock? || at.CancelLock? || at.CompleteLock?
  }

  predicate WaitsSession(at: At) {
    at.CancelLockSession? || at.HandlerLock?
  }

  predicate HoldsMap(at: At) {
    || at.StartInsert? || at.StartUnlock?
    || at.CancelFind? || at.CancelLockSession? || at.CancelMark? || at.CancelUnlockSession?
    || at.CancelUnlock?
    || at.CompleteErase? || at.CompleteUnlock?
  }

  predicate InStart(at: At) {
    at.StartLock? || at.StartInsert? || at.StartUnlock? || at.StartConnect?
  }

  predicate InComplete(at: At) {
    at.CompleteLock? || at.CompleteErase? || at.CompleteUnlock? || at.CompleteResult? || at.CompleteCall?
  }

  predicate InCancel(at: At) {
    || at.CancelLock? || at.CancelFind? || at.CancelLockSession? || at.CancelMark? || at.CancelUnlockSession?
    || at.CancelUnlock?
  }

  predicate InBody(at: At) {
    at.Handle? || at.HandlerLock? || at.HandlerCheck? || at.HandlerUnlock?
  }

  predicate InHandler(at: At) {
    InBody(at) || InComplete(at)
  }

  // The thread holds the cancel lock of its session.
  predicate HoldsSession(th: Thread) {
    || th.at.CancelMark? || th.at.CancelUnlockSession?
    || th.at.HandlerCheck? || th.at.HandlerUnlock?
    || (InComplete(th.at) && th.held)
  }

  // The next event of the thread's session is up to this thread. A handler that has started the next
  // operation (HandlerUnlock) has given its session away.
  predicate Owns(at: At) {
    InStart(at) || (InHandler(at) && !at.HandlerUnlock?)
  }

  // ---- The steps ----

  predicate UserIdle(st: State, t: Tid) {
    st.pool <= t < |st.threads| && st.threads[t].at == Idle
  }

  predicate PoolIdle(st: State, t: Tid) {
    t < st.pool && t < |st.threads| && t !in st.exited && st.threads[t].at == Idle
  }

  predicate CanAdvance(st: State, t: Tid)
    requires t < |st.threads|
  {
    var th := st.threads[t];
    && th.at != Idle
    && (HasSession(th.at) ==> th.s < |st.sessions|)
    && (WaitsMap(th.at) ==> st.mapLock.None?)
    && (WaitsSession(th.at) ==> st.sessions[th.s].lock.None?)
    && (th.at == CloseJoin ==> forall u | 0 <= u < st.pool :: u in st.exited)
    && (th.at == CancelFind && th.id in st.active ==> st.active[th.id] < |st.sessions|)
    && (th.at == HandlerCheck ==> th.op != Read)
  }

  predicate Enabled(st: State, a: Action) {
    match a
    case CallStart(t, _) => UserIdle(st, t)
    case CallCancel(t, _) => UserIdle(st, t)
    case CallClose(t) => UserIdle(st, t) && st.guard
    case Dispatch(t, s, _, _) => PoolIdle(st, t) && !st.stopped && s in st.ops && s < |st.sessions|
    case IosStop => st.outstanding == 0 && !st.stopped
    case PoolExit(t) => PoolIdle(st, t) && st.stopped
    case Advance(t) => t < |st.threads| && CanAdvance(st, t)
  }

  function NextOp(op: Op): Op
    requires op != Read
  {
    if op == Connect then Write else Read
  }

  // The state once thread t has become th and session s has become x.
  function Put(st: State, t: Tid, th: Thread, s: Sid, x: Session): State
    requires t < |st.threads| && s < |st.sessions|
  {
    st.(threads := st.threads[t := th], sessions := st.sessions[s := x])
  }

  function Go(st: State, t: Tid, th: Thread): State
    requires t < |st.threads|
  {
    st.(threads := st.threads[t := th])
  }

  function Step(st: State, a: Action): State
    requires Enabled(st, a)
  {
    match a
    case CallStart(t, id) =>
      var x := Session(id, Success, "", false, None, false, false, 0, Nothing, 0, Success, None, None, "", false, t);
      Go(st.(sessions := st.sessions + [x]), t, IDLE.(at := StartLock, s := |st.sessions|))
    case CallCancel(t, id) => Go(st, t, IDLE.(at := CancelLock, id := id))
    case CallClose(t) => Go(st.(guard := false, outstanding := st.outstanding - 1), t, IDLE.(at := CloseJoin))
    case Dispatch(t, s, ec, line) =>
      var th := Thread(Handle, s, 0, st.ops[s], ec, line, false);
      var answer := if st.ops[s] == Read && ec == Success then Some(line) else st.sessions[s].answer;
      var failure := if ec == Success then st.sessions[s].failure else Some(ec);
      Put(st, t, th, s, st.sessions[s].(runner := t, answer := answer, failure := failure)).(ops := st.ops - {s})
    case IosStop => st.(stopped := true)
    case PoolExit(t) => st.(exited := st.exited + {t})
    case Advance(t) =>
      var at := st.threads[t].at;
      if InStart(at) then StartStep(st, t)
      else if InCancel(at) then CancelStep(st, t)
      else if InBody(at) then HandlerStep(st, t)
      else if InComplete(at) then CompleteStep(st, t)
      else Go(st.(closed := true), t, IDLE)  // CloseJoin
  }

  // EmulateLongComputationOp, lines 81-85
  function StartStep(st: State, t: Tid): State
    requires t < |st.threads| && CanAdvance(st, t) && InStart(st.threads[t].at)
  {
    var th := st.threads[t];
    var x := st.sessions[th.s];
    match th.at
    case StartLock => Go(st, t, th.(at := StartInsert)).(mapLock := Some(t))
    case StartInsert =>
      Put(st, t, th.(at := StartUnlock), th.s, x.(registered := true)).(active := st.active[x.id := th.s])
    case StartUnlock => Go(st, t, th.(at := StartConnect)).(mapLock := None)
    case StartConnect =>
      Put(st, t, IDLE, th.s, x.(early := !st.stopped))
      .(ops := st.ops[th.s := Connect], outstanding := st.outstanding + 1)
  }

  // CancelRequest, lines 136-144. What m_sock.cancel() does to the operation in flight is covered by the
  // arbitrary error code with which that operation completes.
  function CancelStep(st: State, t: Tid): State
    requires t < |st.threads| && CanAdvance(st, t) && InCancel(st.threads[t].at)
  {
    var th := st.threads[t];
    match th.at
    case CancelLock => Go(st, t, th.(at := CancelFind)).(mapLock := Some(t))
    case CancelFind =>
      if th.id in st.active then
        var s := st.active[th.id];
        Put(st, t, th.(at := CancelLockSession, s := s), s, st.sessions[s].(finds := st.sessions[s].finds + 1))
      else
        Go(st, t, th.(at := CancelUnlock))
    case CancelLockSession => Put(st, t, th.(at := CancelMark), th.s, st.sessions[th.s].(lock := Some(t)))
    case CancelMark => Put(st, t, th.(at := CancelUnlockSession), th.s, st.sessions[th.s].(cancelled := true))
    case CancelUnlockSession => Put(st, t, th.(at := CancelUnlock), th.s, st.sessions[th.s].(lock := None))
    case CancelUnlock => Go(st, t, IDLE).(mapLock := None)
  }

  // The completion handlers, lines 88-131
  function HandlerStep(st: State, t: Tid): State
    requires t < |st.threads| && CanAdvance(st, t) && InBody(st.threads[t].at)
  {
    var th := st.threads[t];
    var x := st.sessions[th.s];
    match th.at
    case Handle =>
      if th.ec != Success then
        Put(st, t, th.(at := CompleteLock, held := false), th.s, x.(ec := th.ec))
      else if th.op == Read then
        var y := x.(response := th.line, progress := After(x.progress, Read));
        Put(st, t, th.(at := CompleteLock, held := false), th.s, y)
      else
        Put(st, t, th.(at := HandlerLock), th.s, x.(progress := After(x.progress, th.op)))
    case HandlerLock => Put(st, t, th.(at := HandlerCheck), th.s, x.(lock := Some(t)))
    case HandlerCheck =>
      if x.cancelled then
        Go(st, t, th.(at := CompleteLock, held := true))
      else
        Go(st, t, th.(at := HandlerUnlock)).(ops := st.ops[th.s := NextOp(th.op)], outstanding := st.outstanding + 1)
    case HandlerUnlock => Put(st, t, IDLE, th.s, x.(lock := None)).(outstanding := st.outstanding - 1)
  }

  // OnRequestComplete, lines 161-176
  function CompleteStep(st: State, t: Tid): State
    requires t < |st.threads| && CanAdvance(st, t) && InComplete(st.threads[t].at)
  {
    var th := st.threads[t];
    var x := st.sessions[th.s];
    match th.at
    case CompleteLock => Go(st, t, th.(at := CompleteErase)).(mapLock := Some(t))
    case CompleteErase =>
      Put(st, t, th.(at := CompleteUnlock), th.s, x.(erased := true)).(active := st.active - {x.id})
    case CompleteUnlock => Go(st, t, th.(at := CompleteResult)).(mapLock := None)
    case CompleteResult =>
      var ec := if x.ec == Success && x.cancelled then Aborted else x.ec;
      Go(st, t, th.(at := CompleteCall, ec := ec))
    case CompleteCall =>
      var x' := x.(calls := x.calls + 1, reported := th.ec, delivered := x.response);
      if th.held then Put(st, t, th.(at := HandlerUnlock), th.s, x')
      else Put(st, t, IDLE, th.s, x').(outstanding := st.outstanding - 1)
  }

  // The state after a sequence of steps, if each of them was enabled.
  function Exec(st: State, acts: seq<Action>): Option<State>
    decreases |acts|
  {
    if acts == [] then Some(st)
    else if Enabled(st, acts[0]) then Exec(Step(st, acts[0]), acts[1..])
    else None
  }
}
