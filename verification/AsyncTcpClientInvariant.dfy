// The invariant of the asynchronous TCP client, kept by every step of every thread.
module AsyncTcpClientInvariant {
  import opened Errors
  import opened Wrappers
  import opened AsyncTcpClient

  function Before(op: Op): Progress {
    match op case Connect => Nothing case Write => Connected case Read => Written
  }

  // Why OnRequestComplete was entered.
  predicate Ended(x: Session, held: bool) {
    if held then x.cancelled else x.ec != Success || x.progress == Answered
  }

  // The error code a session reports once it is past its erase step.
  function Verdict(x: Session): ErrorCode {
    if x.ec != Success then x.ec else if x.finds > 0 then Aborted else Success
  }

  predicate Working(x: Session, progress: Progress) {
    x.progress == progress && x.ec == Success && !x.erased
  }

  // What a thread may rely on about the session it works on.
  predicate ThreadKnows(x: Session, th: Thread) {
    && (InStart(th.at) ==>
          Working(x, Nothing) && !x.early && x.registered == (th.at == StartUnlock || th.at == StartConnect))
    && (th.at == CancelLockSession || th.at == CancelMark ==> !x.erased && x.finds > (if x.cancelled then 1 else 0))
    && (th.at == Handle ==> Working(x, Before(th.op)) && x.registered)
    && (th.at == HandlerLock || th.at == HandlerCheck ==>
          th.op != Read && Working(x, Before(NextOp(th.op))) && x.registered)
    && (InHandler(th.at) ==> x.early)
    && (InComplete(th.at) ==>
          Ended(x, th.held) && x.registered && x.erased == !(th.at == CompleteLock || th.at == CompleteErase))
    && (th.at == CompleteCall ==> th.ec == Verdict(x))
  }

  predicate ThreadOk(st: State, t: Tid)
    requires t < |st.threads|
  {
    var th := st.threads[t];
    && (HoldsMap(th.at) <==> st.mapLock == Some(t))
    && (InHandler(th.at) ==> t < st.pool && t !in st.exited)
    && (th.at != Idle && !InHandler(th.at) ==> t >= st.pool)
    && (th.at == CloseJoin ==> !st.guard)
    && (HasSession(th.at) ==>
          && th.s < |st.sessions|
          && (HoldsSession(th) ==> st.sessions[th.s].lock == Some(t))
          && (Owns(th.at) ==> th.s !in st.ops && st.sessions[th.s].calls == 0 && st.sessions[th.s].runner == t)
          && ThreadKnows(st.sessions[th.s], th))
  }

  // The thread that a session names as its lock holder or runner.
  function ThreadAt(st: State, t: Tid): Thread {
    if t < |st.threads| then st.threads[t] else IDLE
  }

  predicate AboutToCancel(th: Thread, s: Sid) {
    (th.at == CancelLockSession || th.at == CancelMark) && th.s == s
  }

  // What holds of a session by itself.
  predicate Sound(x: Session) {
    && (x.calls > 0 ==> x.calls == 1 && x.erased && x.reported == Verdict(x))
    && (x.calls > 0 && Verdict(x) == Success ==> x.progress == Answered)
    && (x.cancelled ==> x.finds > 0)
    && (x.erased ==> x.early)
  }

  // The session is with one thread, in flight, or delivered, and the lock holder knows that it is.
  predicate Placed(st: State, s: Sid)
    requires s < |st.sessions|
  {
    var x := st.sessions[s];
    && (x.lock.Some? ==> var th := ThreadAt(st, x.lock.value); HoldsSession(th) && th.s == s)
    && (s in st.ops || x.calls > 0 || var th := ThreadAt(st, x.runner); Owns(th.at) && th.s == s)
    && (s in st.ops ==> x.calls == 0 && Working(x, Before(st.ops[s])) && x.registered)
  }

  predicate SessionOk(st: State, s: Sid)
    requires s < |st.sessions|
  {
    var x := st.sessions[s];
    && Sound(x) && Placed(st, s)
    && (s in st.ops && !st.stopped ==> x.early)
    // a cancel that found the session has set its flag, or holds the map lock and is about to
    && (x.finds > 0 && !x.cancelled ==>
          !x.erased && st.mapLock.Some? && AboutToCancel(ThreadAt(st, st.mapLock.value), s))
    && (st.stopped && x.early ==> x.calls > 0)
    && (x.erased ==> st.pool > 0)
  }

  predicate EntryOk(st: State, id: RequestId)
    requires id in st.active
  {
    var s := st.active[id];
    s < |st.sessions| && st.sessions[s].id == id && st.sessions[s].registered && !st.sessions[s].erased
  }

  function Busy(st: State): set<Tid> {
    set t | 0 <= t < |st.threads| && InHandler(st.threads[t].at)
  }

  // The io_service's count is the work guard plus the operations in flight plus the handlers running.
  predicate CountOk(st: State) {
    st.outstanding == (if st.guard then 1 else 0) + |st.ops| + |Busy(st)|
  }

  predicate GlobalOk(st: State) {
    && st.pool <= |st.threads|
    && (st.mapLock.Some? ==> HoldsMap(ThreadAt(st, st.mapLock.value).at))
    && (forall s | s in st.ops :: s < |st.sessions|)
    && (st.stopped ==> !st.guard)
    && (st.exited != {} ==> st.stopped)
    && (st.closed ==> forall u | 0 <= u < st.pool :: u in st.exited)
  }

  predicate Inv(st: State) {
    && GlobalOk(st) && CountOk(st)
    && (forall t | 0 <= t < |st.threads| :: ThreadOk(st, t))
    && (forall s | 0 <= s < |st.sessions| :: SessionOk(st, s))
    && (forall id | id in st.active :: EntryOk(st, id))
  }

  // A handler that is running counts as one piece of work.
  function Load(th: Thread): nat {
    if InHandler(th.at) then 1 else 0
  }

  predicate Live(x: Session) {
    x.registered && !x.erased
  }

  // ---- What a step of one thread does to the others ----

  // The session a step of thread t may change.
  function Target(st: State, t: Tid): Sid
    requires t < |st.threads|
  {
    var th := st.threads[t];
    if th.at == CancelFind && th.id in st.active then st.active[th.id] else th.s
  }

  // Nothing else changes than the thread, its session, the map lock, the map and the count of work, and the
  // balance of that count is kept.
  predicate Framed(st: State, st': State, t: Tid)
    requires t < |st.threads|
  {
    var target := Target(st, t);
    && st'.pool == st.pool && st'.guard == st.guard && st'.stopped == st.stopped && st'.exited == st.exited
    && st'.closed == st.closed
    && |st'.threads| == |st.threads| && |st'.sessions| == |st.sessions|
    && (forall u | 0 <= u < |st.threads| && u != t :: st'.threads[u] == st.threads[u])
    && (forall s | 0 <= s < |st.sessions| && s != target :: st'.sessions[s] == st.sessions[s])
    && (forall s | s in st'.ops && s != target :: s in st.ops && st'.ops[s] == st.ops[s])
    && (forall s | s in st.ops && s != target :: s in st'.ops)
    && st'.outstanding - |st'.ops| - Load(st'.threads[t]) == st.outstanding - |st.ops| - Load(st.threads[t])
  }

  // Taking a free lock or giving back one's own.
  predicate Handover(before: Option<Tid>, after: Option<Tid>, t: Tid) {
    after == before || (before == None && after == Some(t)) || (before == Some(t) && after == None)
  }

  // Only the owner moves a session on, a cancel reaches it only under the map lock, and none does once it is
  // erased.
  predicate Changed(x: Session, y: Session, th: Thread, t: Tid) {
    && y.id == x.id && Handover(x.lock, y.lock, t)
    && (!Owns(th.at) ==> y == x.(lock := y.lock, finds := y.finds, cancelled := y.cancelled))
    && (!HoldsMap(th.at) ==>
          y.finds == x.finds && y.cancelled == x.cancelled && y.registered == x.registered && y.erased == x.erased)
    && (x.cancelled ==> y.cancelled) && (x.early ==> y.early)
    && (x.erased ==> y.erased && y.finds == x.finds && y.cancelled == x.cancelled)
  }

  // The map changes where a session is inserted or erased, and nowhere else.
  predicate MapChanged(st: State, st': State, t: Tid)
    requires t < |st.threads|
  {
    var at, s := st.threads[t].at, Target(st, t);
    if at == StartInsert && s < |st.sessions| && s < |st'.sessions| then
      st'.active == st.active[st.sessions[s].id := s] && Live(st'.sessions[s])
    else if at == CompleteErase && s < |st.sessions| && s < |st'.sessions| then
      st'.active == st.active - {st.sessions[s].id} && !Live(st'.sessions[s])
    else
      && st'.active == st.active
      && (s < |st.sessions| && s < |st'.sessions| ==> Live(st'.sessions[s]) == Live(st.sessions[s]))
  }

  predicate Guarantee(st: State, st': State, t: Tid)
    requires t < |st.threads|
  {
    var s := Target(st, t);
    && |st'.sessions| == |st.sessions| && MapChanged(st, st', t)
    && Handover(st.mapLock, st'.mapLock, t)
    && (s < |st.sessions| ==> Changed(st.sessions[s], st'.sessions[s], st.threads[t], t))
    && (s < |st.sessions| && st.stopped ==> (st'.sessions[s].early ==> st.sessions[s].early))
    && (!Owns(st.threads[t].at) ==> st'.ops == st.ops && t < |st'.threads| && !Owns(st'.threads[t].at))
    && (s in st'.ops ==> s < |st.sessions|)
  }

  // What a step of thread t relies on.
  predicate Ready(st: State, t: Tid) {
    && t < |st.threads| && CanAdvance(st, t) && ThreadOk(st, t)
    && (Target(st, t) < |st.sessions| ==> SessionOk(st, Target(st, t)))
    && (Target(st, t) in st.ops ==> Target(st, t) < |st.sessions|)
    && (st.threads[t].id in st.active ==> EntryOk(st, st.threads[t].id))
    && (st.stopped ==> !st.guard)
  }

  // What it establishes for itself and its session.
  predicate Settled(st: State, st': State, t: Tid)
    requires t < |st.threads|
  {
    && t < |st'.threads| && ThreadOk(st', t)
    && (Target(st, t) < |st'.sessions| ==> SessionOk(st', Target(st, t)))
  }

  predicate Done(st: State, st': State, t: Tid)
    requires t < |st.threads|
  {
    Framed(st, st', t) && Guarantee(st, st', t) && Settled(st, st', t)
  }

  lemma StartLockFramed(st: State, t: Tid)
    requires t < |st.threads| && CanAdvance(st, t) && (st.threads[t].at == StartLock || st.threads[t].at == StartInsert)
    requires Owns(st.threads[t].at) ==> st.threads[t].s !in st.ops
    ensures Framed(st, StartStep(st, t), t)
  {}

  lemma StartUnlockFramed(st: State, t: Tid)
    requires t < |st.threads| && CanAdvance(st, t)
    requires st.threads[t].at == StartUnlock || st.threads[t].at == StartConnect
    requires Owns(st.threads[t].at) ==> st.threads[t].s !in st.ops
    ensures Framed(st, StartStep(st, t), t)
  {}

  lemma StartLockKeeps(st: State, t: Tid)
    requires Ready(st, t) && st.threads[t].at == StartLock
    ensures Guarantee(st, StartStep(st, t), t) && Settled(st, StartStep(st, t), t)
  {}

  lemma StartInsertKeeps(st: State, t: Tid)
    requires Ready(st, t) && st.threads[t].at == StartInsert
    ensures Guarantee(st, StartStep(st, t), t) && Settled(st, StartStep(st, t), t)
  {}

  lemma StartUnlockKeeps(st: State, t: Tid)
    requires Ready(st, t) && st.threads[t].at == StartUnlock
    ensures Guarantee(st, StartStep(st, t), t) && Settled(st, StartStep(st, t), t)
  {}

  lemma StartConnectKeeps(st: State, t: Tid)
    requires Ready(st, t) && st.threads[t].at == StartConnect
    ensures Guarantee(st, StartStep(st, t), t) && Settled(st, StartStep(st, t), t)
  {}

  lemma StartDone(st: State, t: Tid)
    requires Ready(st, t) && InStart(st.threads[t].at)
    ensures Done(st, StartStep(st, t), t)
  {
    match st.threads[t].at
    case StartLock =>
      StartLockFramed(st, t);
      StartLockKeeps(st, t);
    case StartInsert =>
      StartLockFramed(st, t);
      StartInsertKeeps(st, t);
    case StartUnlock =>
      StartUnlockFramed(st, t);
      StartUnlockKeeps(st, t);
    case StartConnect =>
      StartUnlockFramed(st, t);
      StartConnectKeeps(st, t);
  }

  lemma CancelLockFramed(st: State, t: Tid)
    requires t < |st.threads| && CanAdvance(st, t)
    requires st.threads[t].at == CancelLock || st.threads[t].at == CancelUnlock
    requires Owns(st.threads[t].at) ==> st.threads[t].s !in st.ops
    ensures Framed(st, CancelStep(st, t), t)
  {}

  lemma CancelFindFramed(st: State, t: Tid)
    requires t < |st.threads| && CanAdvance(st, t) && st.threads[t].at == CancelFind
    requires Owns(st.threads[t].at) ==> st.threads[t].s !in st.ops
    ensures Framed(st, CancelStep(st, t), t)
  {}

  lemma CancelLockSessionFramed(st: State, t: Tid)
    requires t < |st.threads| && CanAdvance(st, t)
    requires st.threads[t].at == CancelLockSession || st.threads[t].at == CancelMark
          || st.threads[t].at == CancelUnlockSession
    requires Owns(st.threads[t].at) ==> st.threads[t].s !in st.ops
    ensures Framed(st, CancelStep(st, t), t)
  {}

  lemma CancelLockKeeps(st: State, t: Tid)
    requires Ready(st, t) && st.threads[t].at == CancelLock
    ensures Guarantee(st, CancelStep(st, t), t) && Settled(st, CancelStep(st, t), t)
  {}

  lemma CancelFindHitGuarantee(st: State, t: Tid)
    requires Ready(st, t) && st.threads[t].at == CancelFind
    requires st.threads[t].id in st.active
    ensures Guarantee(st, CancelStep(st, t), t)
  {}

  lemma CancelFindHitSettled(st: State, t: Tid)
    requires Ready(st, t) && st.threads[t].at == CancelFind
    requires st.threads[t].id in st.active
    ensures Settled(st, CancelStep(st, t), t)
  {}

  lemma CancelFindMissKeeps(st: State, t: Tid)
    requires Ready(st, t) && st.threads[t].at == CancelFind
    requires st.threads[t].id !in st.active
    ensures Guarantee(st, CancelStep(st, t), t) && Settled(st, CancelStep(st, t), t)
  {}

  lemma CancelLockSessionKeeps(st: State, t: Tid)
    requires Ready(st, t) && st.threads[t].at == CancelLockSession
    ensures Guarantee(st, CancelStep(st, t), t) && Settled(st, CancelStep(st, t), t)
  {}

  lemma CancelMarkKeeps(st: State, t: Tid)
    requires Ready(st, t) && st.threads[t].at == CancelMark
    ensures Guarantee(st, CancelStep(st, t), t) && Settled(st, CancelStep(st, t), t)
  {}

  lemma CancelUnlockSessionKeeps(st: State, t: Tid)
    requires Ready(st, t) && st.threads[t].at == CancelUnlockSession
    ensures Guarantee(st, CancelStep(st, t), t) && Settled(st, CancelStep(st, t), t)
  {}

  lemma CancelUnlockKeeps(st: State, t: Tid)
    requires Ready(st, t) && st.threads[t].at == CancelUnlock
    ensures Guarantee(st, CancelStep(st, t), t) && Settled(st, CancelStep(st, t), t)
  {}

  lemma CancelDone(st: State, t: Tid)
    requires Ready(st, t) && InCancel(st.threads[t].at)
    ensures Done(st, CancelStep(st, t), t)
  {
    match st.threads[t].at
    case CancelLock =>
      CancelLockFramed(st, t);
      CancelLockKeeps(st, t);
    case CancelFind =>
      CancelFindFramed(st, t);
      if st.threads[t].id in st.active {
        CancelFindHitGuarantee(st, t);
        CancelFindHitSettled(st, t);
      } else {
        CancelFindMissKeeps(st, t);
      }
    case CancelLockSession =>
      CancelLockSessionFramed(st, t);
      CancelLockSessionKeeps(st, t);
    case CancelMark =>
      CancelLockSessionFramed(st, t);
      CancelMarkKeeps(st, t);
    case CancelUnlockSession =>
      CancelLockSessionFramed(st, t);
      CancelUnlockSessionKeeps(st, t);
    case CancelUnlock =>
      CancelLockFramed(st, t);
      CancelUnlockKeeps(st, t);
  }

  lemma HandleEndFramed(st: State, t: Tid)
    requires t < |st.threads| && CanAdvance(st, t) && st.threads[t].at == Handle
    requires st.threads[t].ec != Success || st.threads[t].op == Read
    ensures Framed(st, HandlerStep(st, t), t)
  {}

  lemma HandleNextFramed(st: State, t: Tid)
    requires t < |st.threads| && CanAdvance(st, t) && st.threads[t].at == Handle
    requires st.threads[t].ec == Success && st.threads[t].op != Read
    ensures Framed(st, HandlerStep(st, t), t)
  {}

  lemma HandlerLockFramed(st: State, t: Tid)
    requires t < |st.threads| && CanAdvance(st, t)
    requires st.threads[t].at == HandlerLock || st.threads[t].at == HandlerUnlock
    requires Owns(st.threads[t].at) ==> st.threads[t].s !in st.ops
    ensures Framed(st, HandlerStep(st, t), t)
  {}

  lemma HandlerCheckHitFramed(st: State, t: Tid)
    requires t < |st.threads| && CanAdvance(st, t) && st.threads[t].at == HandlerCheck
    requires st.sessions[st.threads[t].s].cancelled
    ensures Framed(st, HandlerStep(st, t), t)
  {}

  lemma HandlerCheckNextFramed(st: State, t: Tid)
    requires t < |st.threads| && CanAdvance(st, t) && st.threads[t].at == HandlerCheck
    requires !st.sessions[st.threads[t].s].cancelled && st.threads[t].s !in st.ops
    ensures Framed(st, HandlerStep(st, t), t)
  {}

  lemma HandleErrorKeeps(st: State, t: Tid)
    requires Ready(st, t) && st.threads[t].at == Handle
    requires st.threads[t].ec != Success
    ensures Guarantee(st, HandlerStep(st, t), t) && Settled(st, HandlerStep(st, t), t)
  {}

  lemma HandleAnswerGuarantee(st: State, t: Tid)
    requires Ready(st, t) && st.threads[t].at == Handle
    requires st.threads[t].ec == Success && st.threads[t].op == Read
    ensures Guarantee(st, HandlerStep(st, t), t)
  {}

  lemma HandleAnswerSettled(st: State, t: Tid)
    requires Ready(st, t) && st.threads[t].at == Handle
    requires st.threads[t].ec == Success && st.threads[t].op == Read
    ensures Settled(st, HandlerStep(st, t), t)
  {}

  lemma HandleNextGuarantee(st: State, t: Tid)
    requires Ready(st, t) && st.threads[t].at == Handle
    requires st.threads[t].ec == Success && st.threads[t].op != Read
    ensures Guarantee(st, HandlerStep(st, t), t)
  {}

  lemma HandleNextSettled(st: State, t: Tid)
    requires Ready(st, t) && st.threads[t].at == Handle
    requires st.threads[t].ec == Success && st.threads[t].op != Read
    ensures Settled(st, HandlerStep(st, t), t)
  {}

  lemma HandlerLockKeeps(st: State, t: Tid)
    requires Ready(st, t) && st.threads[t].at == HandlerLock
    ensures Guarantee(st, HandlerStep(st, t), t) && Settled(st, HandlerStep(st, t), t)
  {}

  lemma HandlerCheckHitKeeps(st: State, t: Tid)
    requires Ready(st, t) && st.threads[t].at == HandlerCheck
    requires st.sessions[st.threads[t].s].cancelled
    ensures Guarantee(st, HandlerStep(st, t), t) && Settled(st, HandlerStep(st, t), t)
  {}

  lemma HandlerCheckNextGuarantee(st: State, t: Tid)
    requires Ready(st, t) && st.threads[t].at == HandlerCheck
    requires !st.sessions[st.threads[t].s].cancelled
    ensures Guarantee(st, HandlerStep(st, t), t)
  {}

  lemma HandlerCheckNextSettled(st: State, t: Tid)
    requires Ready(st, t) && st.threads[t].at == HandlerCheck
    requires !st.sessions[st.threads[t].s].cancelled
    ensures Settled(st, HandlerStep(st, t), t)
  {}

  lemma HandlerUnlockKeeps(st: State, t: Tid)
    requires Ready(st, t) && st.threads[t].at == HandlerUnlock
    ensures Guarantee(st, HandlerStep(st, t), t) && Settled(st, HandlerStep(st, t), t)
  {}

  lemma HandlerDone(st: State, t: Tid)
    requires Ready(st, t) && InBody(st.threads[t].at)
    ensures Done(st, HandlerStep(st, t), t)
  {
    match st.threads[t].at
    case Handle =>
      if st.threads[t].ec != Success {
        HandleEndFramed(st, t);
        HandleErrorKeeps(st, t);
      } else if st.threads[t].ec == Success && st.threads[t].op == Read {
        HandleEndFramed(st, t);
        HandleAnswerGuarantee(st, t);
        HandleAnswerSettled(st, t);
      } else {
        HandleNextFramed(st, t);
        HandleNextGuarantee(st, t);
        HandleNextSettled(st, t);
      }
    case HandlerLock =>
      HandlerLockFramed(st, t);
      HandlerLockKeeps(st, t);
    case HandlerCheck =>
      if st.sessions[st.threads[t].s].cancelled {
        HandlerCheckHitFramed(st, t);
        HandlerCheckHitKeeps(st, t);
      } else {
        HandlerCheckNextFramed(st, t);
        HandlerCheckNextGuarantee(st, t);
        HandlerCheckNextSettled(st, t);
      }
    case HandlerUnlock =>
      HandlerLockFramed(st, t);
      HandlerUnlockKeeps(st, t);
  }

  lemma CompleteLockFramed(st: State, t: Tid)
    requires t < |st.threads| && CanAdvance(st, t)
    requires st.threads[t].at == CompleteLock || st.threads[t].at == CompleteErase
    requires Owns(st.threads[t].at) ==> st.threads[t].s !in st.ops
    ensures Framed(st, CompleteStep(st, t), t)
  {}

  lemma CompleteUnlockFramed(st: State, t: Tid)
    requires t < |st.threads| && CanAdvance(st, t)
    requires st.threads[t].at == CompleteUnlock || st.threads[t].at == CompleteResult
    requires Owns(st.threads[t].at) ==> st.threads[t].s !in st.ops
    ensures Framed(st, CompleteStep(st, t), t)
  {}

  lemma CompleteCallFramed(st: State, t: Tid)
    requires t < |st.threads| && CanAdvance(st, t) && st.threads[t].at == CompleteCall
    requires Owns(st.threads[t].at) ==> st.threads[t].s !in st.ops
    ensures Framed(st, CompleteStep(st, t), t)
  {}

  lemma CompleteLockKeeps(st: State, t: Tid)
    requires Ready(st, t) && st.threads[t].at == CompleteLock
    ensures Guarantee(st, CompleteStep(st, t), t) && Settled(st, CompleteStep(st, t), t)
  {}

  lemma CompleteEraseGuarantee(st: State, t: Tid)
    requires Ready(st, t) && st.threads[t].at == CompleteErase
    ensures Guarantee(st, CompleteStep(st, t), t)
  {}

  lemma CompleteEraseSettled(st: State, t: Tid)
    requires Ready(st, t) && st.threads[t].at == CompleteErase
    ensures Settled(st, CompleteStep(st, t), t)
  {}

  lemma CompleteUnlockKeeps(st: State, t: Tid)
    requires Ready(st, t) && st.threads[t].at == CompleteUnlock
    ensures Guarantee(st, CompleteStep(st, t), t) && Settled(st, CompleteStep(st, t), t)
  {}

  lemma CompleteResultGuarantee(st: State, t: Tid)
    requires Ready(st, t) && st.threads[t].at == CompleteResult
    ensures Guarantee(st, CompleteStep(st, t), t)
  {}

  lemma CompleteResultThread(st: State, t: Tid)
    requires Ready(st, t) && st.threads[t].at == CompleteResult
    ensures ThreadOk(CompleteStep(st, t), t)
  {}

  lemma CompleteResultSession(st: State, t: Tid)
    requires Ready(st, t) && st.threads[t].at == CompleteResult
    ensures SessionOk(CompleteStep(st, t), st.threads[t].s)
  {}

  lemma CompleteCallHeldGuarantee(st: State, t: Tid)
    requires Ready(st, t) && st.threads[t].at == CompleteCall
    requires st.threads[t].held
    ensures Guarantee(st, CompleteStep(st, t), t)
  {}

  lemma CompleteCallHeldSound(st: State, t: Tid)
    requires Ready(st, t) && st.threads[t].at == CompleteCall
    requires st.threads[t].held
    ensures Sound(CompleteStep(st, t).sessions[st.threads[t].s])
  {}

  lemma CompleteCallHeldSettled(st: State, t: Tid)
    requires Ready(st, t) && st.threads[t].at == CompleteCall
    requires st.threads[t].held
    requires Sound(CompleteStep(st, t).sessions[st.threads[t].s])
    ensures Settled(st, CompleteStep(st, t), t)
  {}

  lemma CompleteCallFreeGuarantee(st: State, t: Tid)
    requires Ready(st, t) && st.threads[t].at == CompleteCall
    requires !st.threads[t].held
    ensures Guarantee(st, CompleteStep(st, t), t)
  {}

  lemma CompleteCallFreeThread(st: State, t: Tid)
    requires Ready(st, t) && st.threads[t].at == CompleteCall
    requires !st.threads[t].held
    ensures ThreadOk(CompleteStep(st, t), t)
  {}

  lemma CompleteCallFreeSound(st: State, t: Tid)
    requires t < |st.threads| && CanAdvance(st, t) && st.threads[t].at == CompleteCall
    requires ThreadOk(st, t) && SessionOk(st, st.threads[t].s)
    requires !st.threads[t].held
    ensures Sound(CompleteStep(st, t).sessions[st.threads[t].s])
  {}

  lemma CompleteCallFreeSession(st: State, t: Tid)
    requires t < |st.threads| && CanAdvance(st, t) && st.threads[t].at == CompleteCall
    requires ThreadOk(st, t) && SessionOk(st, st.threads[t].s)
    requires !st.threads[t].held
    requires Sound(CompleteStep(st, t).sessions[st.threads[t].s])
    ensures SessionOk(CompleteStep(st, t), st.threads[t].s)
  {}

  lemma CompleteDone(st: State, t: Tid)
    requires Ready(st, t) && InComplete(st.threads[t].at)
    ensures Done(st, CompleteStep(st, t), t)
  {
    match st.threads[t].at
    case CompleteLock =>
      CompleteLockFramed(st, t);
      CompleteLockKeeps(st, t);
    case CompleteErase =>
      CompleteLockFramed(st, t);
      CompleteEraseGuarantee(st, t);
      CompleteEraseSettled(st, t);
    case CompleteUnlock =>
      CompleteUnlockFramed(st, t);
      CompleteUnlockKeeps(st, t);
    case CompleteResult =>
      CompleteUnlockFramed(st, t);
      CompleteResultGuarantee(st, t);
      CompleteResultThread(st, t);
      CompleteResultSession(st, t);
    case CompleteCall =>
      CompleteCallFramed(st, t);
      if st.threads[t].held {
        CompleteCallHeldGuarantee(st, t);
        CompleteCallHeldSound(st, t);
        CompleteCallHeldSettled(st, t);
      } else {
        CompleteCallFreeGuarantee(st, t);
        CompleteCallFreeThread(st, t);
        CompleteCallFreeSound(st, t);
        CompleteCallFreeSession(st, t);
      }
  }

  lemma AdvanceDone(st: State, t: Tid)
    requires Inv(st) && Enabled(st, Advance(t)) && st.threads[t].at != CloseJoin
    ensures Done(st, Step(st, Advance(t)), t)
  {
    ReadyToAdvance(st, t);
    var at := st.threads[t].at;
    if InStart(at) {
      StartDone(st, t);
    } else if InCancel(at) {
      CancelDone(st, t);
    } else if InBody(at) {
      HandlerDone(st, t);
    } else {
      CompleteDone(st, t);
    }
  }

  lemma ReadyToAdvance(st: State, t: Tid)
    requires Inv(st) && Enabled(st, Advance(t))
    ensures Ready(st, t)
  {
    assert ThreadOk(st, t);
    assert st.threads[t].id in st.active ==> EntryOk(st, st.threads[t].id);
  }

  // ---- What the other threads, sessions and entries keep ----

  // What another thread knows about the session stays true.
  lemma StillKnown(x: Session, y: Session, th: Thread, t: Tid, other: Thread)
    requires Changed(x, y, th, t) && ThreadKnows(x, other)
    requires !(Owns(th.at) && Owns(other.at)) && !(HoldsMap(th.at) && HoldsMap(other.at))
    ensures ThreadKnows(y, other)
  {}

  lemma OtherThreadKept(st: State, st': State, t: Tid, u: Tid)
    requires t < |st.threads| && u < |st.threads| && u != t
    requires ThreadOk(st, t) && ThreadOk(st, u) && Done(st, st', t)
    ensures ThreadOk(st', u)
  {
    var s, other := Target(st, t), st.threads[u];
    if HasSession(other.at) && other.s == s {
      StillKnown(st.sessions[s], st'.sessions[s], st.threads[t], t, other);
    }
  }

  lemma OtherSessionKept(st: State, st': State, t: Tid, s: Sid)
    requires t < |st.threads| && s < |st.sessions| && s != Target(st, t)
    requires ThreadOk(st, t) && SessionOk(st, s) && Done(st, st', t)
    ensures SessionOk(st', s)
  {}

  lemma EntryKept(st: State, st': State, t: Tid, id: RequestId)
    requires t < |st.threads| && id in st'.active && (id in st.active ==> EntryOk(st, id))
    requires ThreadOk(st, t) && Done(st, st', t)
    ensures EntryOk(st', id)
  {}

  lemma AdvanceKeeps(st: State, t: Tid)
    requires Inv(st) && Enabled(st, Advance(t)) && st.threads[t].at != CloseJoin
    ensures Inv(Step(st, Advance(t)))
  {
    var st' := Step(st, Advance(t));
    AdvanceDone(st, t);
    assert ThreadOk(st, t);
    forall u | 0 <= u < |st'.threads| ensures ThreadOk(st', u) {
      if u != t {
        OtherThreadKept(st, st', t, u);
      }
    }
    forall s | 0 <= s < |st'.sessions| ensures SessionOk(st', s) {
      if s != Target(st, t) {
        OtherSessionKept(st, st', t, s);
      }
    }
    forall id | id in st'.active ensures EntryOk(st', id) {
      EntryKept(st, st', t, id);
    }
    AdvanceKeepsGlobal(st, st', t);
  }

  lemma AdvanceKeepsGlobal(st: State, st': State, t: Tid)
    requires GlobalOk(st) && CountOk(st) && t < |st.threads| && ThreadOk(st, t) && Done(st, st', t)
    ensures GlobalOk(st') && CountOk(st')
  {
    BusyAfter(st, t, st');
  }

  // ---- The other steps ----

  lemma CallThread(st: State, a: Action, u: Tid)
    requires Enabled(st, a) && (a.CallStart? || a.CallCancel? || a.CallClose?)
    requires GlobalOk(st) && ThreadOk(st, a.t) && u < |st.threads| && ThreadOk(st, u)
    ensures ThreadOk(Step(st, a), u)
  {}

  lemma CallSession(st: State, a: Action, s: Sid)
    requires Enabled(st, a) && (a.CallStart? || a.CallCancel? || a.CallClose?)
    requires GlobalOk(st) && ThreadOk(st, a.t) && s < |Step(st, a).sessions|
    requires s < |st.sessions| ==> SessionOk(st, s)
    ensures SessionOk(Step(st, a), s)
  {}

  lemma DispatchThread(st: State, a: Action, u: Tid)
    requires Enabled(st, a) && a.Dispatch? && ThreadOk(st, a.t) && SessionOk(st, a.s)
    requires u < |st.threads| && ThreadOk(st, u)
    ensures ThreadOk(Step(st, a), u)
  {}

  lemma DispatchSession(st: State, a: Action, s: Sid)
    requires Enabled(st, a) && a.Dispatch? && ThreadOk(st, a.t) && SessionOk(st, a.s)
    requires s < |st.sessions| && SessionOk(st, s)
    ensures SessionOk(Step(st, a), s)
  {}

  // With no work left, a session that was connected in time is neither in flight nor with a thread.
  lemma StopSession(st: State, s: Sid)
    requires Enabled(st, IosStop) && Inv(st) && s < |st.sessions|
    ensures SessionOk(Step(st, IosStop), s)
  {
    assert SessionOk(st, s);
    var x := st.sessions[s];
    var th := ThreadAt(st, x.runner);
    if Owns(th.at) && th.s == s {
      assert ThreadOk(st, x.runner);
      assert x.runner !in Busy(st);
    }
  }

  lemma OtherThread(st: State, a: Action, u: Tid)
    requires Inv(st) && Enabled(st, a) && (a.Advance? ==> st.threads[a.t].at == CloseJoin)
    requires u < |st.threads|
    ensures ThreadOk(Step(st, a), u)
  {
    assert ThreadOk(st, u);
    if !a.IosStop? {
      assert ThreadOk(st, a.t);
    }
    if a.CallStart? || a.CallCancel? || a.CallClose? {
      CallThread(st, a, u);
    } else if a.Dispatch? {
      DispatchThread(st, a, u);
    }
  }

  lemma OtherSession(st: State, a: Action, s: Sid)
    requires Inv(st) && Enabled(st, a) && (a.Advance? ==> st.threads[a.t].at == CloseJoin)
    requires s < |Step(st, a).sessions|
    ensures SessionOk(Step(st, a), s)
  {
    assert s < |st.sessions| ==> SessionOk(st, s);
    if a.IosStop? {
      StopSession(st, s);
    } else {
      assert ThreadOk(st, a.t);
      if a.CallStart? || a.CallCancel? || a.CallClose? {
        CallSession(st, a, s);
      } else if a.Dispatch? {
        DispatchSession(st, a, s);
      }
    }
  }

  lemma OtherKeeps(st: State, a: Action)
    requires Inv(st) && Enabled(st, a) && (a.Advance? ==> st.threads[a.t].at == CloseJoin)
    ensures Inv(Step(st, a))
  {
    var st' := Step(st, a);
    forall u | 0 <= u < |st'.threads| ensures ThreadOk(st', u) {
      OtherThread(st, a, u);
    }
    forall s | 0 <= s < |st'.sessions| ensures SessionOk(st', s) {
      OtherSession(st, a, s);
    }
    forall id | id in st'.active ensures EntryOk(st', id) {
      assert EntryOk(st, id);
    }
    OtherGlobalKept(st, a);
  }

  // Replacing one thread moves it into or out of the set of busy ones.
  lemma BusyAfter(st: State, t: Tid, st': State)
    requires t < |st.threads| && |st'.threads| == |st.threads|
    requires forall u | 0 <= u < |st.threads| && u != t :: st'.threads[u] == st.threads[u]
    ensures |Busy(st')| == |Busy(st)|
              - (if InHandler(st.threads[t].at) then 1 else 0) + (if InHandler(st'.threads[t].at) then 1 else 0)
  {
    assert t in Busy(st) <==> InHandler(st.threads[t].at);
    assert Busy(st') == if InHandler(st'.threads[t].at) then Busy(st) + {t} else Busy(st) - {t};
  }

  lemma OtherGlobalKept(st: State, a: Action)
    requires Inv(st) && Enabled(st, a) && (a.Advance? ==> st.threads[a.t].at == CloseJoin)
    ensures GlobalOk(Step(st, a)) && CountOk(Step(st, a))
  {
    if a.IosStop? {
      assert Busy(Step(st, a)) == Busy(st);
    } else {
      assert ThreadOk(st, a.t);
      if a.Dispatch? {
        DispatchCounts(st, a);
      } else if a.CallStart? || a.CallCancel? || a.CallClose? {
        CallCounts(st, a);
      } else {
        BusyAfter(st, a.t, Step(st, a));
      }
    }
  }

  lemma DispatchCounts(st: State, a: Action)
    requires Enabled(st, a) && a.Dispatch? && GlobalOk(st) && CountOk(st)
    ensures GlobalOk(Step(st, a)) && CountOk(Step(st, a))
  {
    BusyAfter(st, a.t, Step(st, a));
  }

  lemma CallCounts(st: State, a: Action)
    requires Enabled(st, a) && (a.CallStart? || a.CallCancel? || a.CallClose?)
    requires GlobalOk(st) && CountOk(st) && ThreadOk(st, a.t)
    ensures GlobalOk(Step(st, a)) && CountOk(Step(st, a))
  {
    BusyAfter(st, a.t, Step(st, a));
  }

  lemma InvKept(st: State, a: Action)
    requires Inv(st) && Enabled(st, a)
    ensures Inv(Step(st, a))
  {
    if a.Advance? && st.threads[a.t].at != CloseJoin {
      AdvanceKeeps(st, a.t);
    } else {
      OtherKeeps(st, a);
    }
  }

  lemma InitInv(pool: nat, users: nat)
    ensures Inv(Init(pool, users))
  {
    assert Busy(Init(pool, users)) == {};
  }

  lemma {:induction false} InvAlong(st: State, acts: seq<Action>)
    requires Inv(st) && Exec(st, acts).Some?
    ensures Inv(Exec(st, acts).value)
    decreases |acts|
  {
    if acts != [] {
      InvKept(st, acts[0]);
      InvAlong(Step(st, acts[0]), acts[1..]);
    }
  }

  // Some run of some number of pool threads and user threads leads to st.
  predicate Reaches(pool: nat, users: nat, acts: seq<Action>, st: State) {
    Exec(Init(pool, users), acts) == Some(st)
  }

  lemma ReachesInv(pool: nat, users: nat, acts: seq<Action>, st: State)
    requires Reaches(pool, users, acts, st)
    ensures Inv(st)
  {
    InitInv(pool, users);
    InvAlong(Init(pool, users), acts);
  }
}
