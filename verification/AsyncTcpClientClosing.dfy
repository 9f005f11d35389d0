// Close returns, or the circular wait keeps it: runs without new calls are finite.
module AsyncTcpClientClosing {
  import opened Wrappers
  import opened AsyncTcpClient
  import opened AsyncTcpClientInvariant
  import opened AsyncTcpClientTheorems

  // ---- How many steps are left at most ----

  // From the completion of an operation to the end of its session.
  function OpWeight(op: Op): nat {
    match op
    case Connect => 18
    case Write => 13
    case Read => 8
  }

  function Weight(th: Thread): nat {
    match th.at
    case Idle => 0
    case StartLock => 22
    case StartInsert => 21
    case StartUnlock => 20
    case StartConnect => 19
    case CancelLock => 6
    case CancelFind => 5
    case CancelLockSession => 4
    case CancelMark => 3
    case CancelUnlockSession => 2
    case CancelUnlock => 1
    case CloseJoin => 1
    case Handle => OpWeight(th.op) - 1
    case HandlerLock => OpWeight(th.op) - 2
    case HandlerCheck => OpWeight(th.op) - 3
    case HandlerUnlock => 1
    case CompleteLock => 6
    case CompleteErase => 5
    case CompleteUnlock => 4
    case CompleteResult => 3
    case CompleteCall => 2
  }

  // A pool thread has still to leave run().
  function ThreadLoad(st: State, t: Tid): nat
    requires t < |st.threads|
  {
    Weight(st.threads[t]) + if t < st.pool && t !in st.exited then 1 else 0
  }

  function OpLoad(st: State, s: Sid): nat {
    if s in st.ops then OpWeight(st.ops[s]) else 0
  }

  function ThreadsLoad(st: State, n: nat): nat
    requires n <= |st.threads|
  {
    if n == 0 then 0 else ThreadsLoad(st, n - 1) + ThreadLoad(st, n - 1)
  }

  function OpsLoad(st: State, n: nat): nat {
    if n == 0 then 0 else OpsLoad(st, n - 1) + OpLoad(st, n - 1)
  }

  function StepsLeft(st: State): nat {
    ThreadsLoad(st, |st.threads|) + OpsLoad(st, |st.sessions|) + if st.stopped then 0 else 1
  }

  lemma {:induction false} ThreadsLoadAfter(st: State, st': State, t: Tid, n: nat)
    requires t < |st.threads| == |st'.threads| && n <= |st.threads|
    requires forall u | 0 <= u < n && u != t :: ThreadLoad(st', u) == ThreadLoad(st, u)
    ensures ThreadsLoad(st', n) - ThreadsLoad(st, n) == if t < n then ThreadLoad(st', t) - ThreadLoad(st, t) else 0
  {
    if n > 0 {
      ThreadsLoadAfter(st, st', t, n - 1);
    }
  }

  lemma {:induction false} OpsLoadAfter(st: State, st': State, s: Sid, n: nat)
    requires forall u | 0 <= u < n && u != s :: OpLoad(st', u) == OpLoad(st, u)
    ensures OpsLoad(st', n) - OpsLoad(st, n) == if s < n then OpLoad(st', s) - OpLoad(st, s) else 0
  {
    if n > 0 {
      OpsLoadAfter(st, st', s, n - 1);
    }
  }

  // ---- Every step but a new call lowers the bound ----

  // A step of thread t gives less work than it does.
  predicate Lowers(st: State, st': State, t: Tid)
    requires t < |st.threads|
  {
    var s := st.threads[t].s;
    && t < |st'.threads|
    && Weight(st'.threads[t]) + OpLoad(st', s) < Weight(st.threads[t]) + OpLoad(st, s)
    && (st'.ops == st.ops || Target(st, t) == s)
  }

  lemma StartLockLowers(st: State, t: Tid)
    requires t < |st.threads| && CanAdvance(st, t) && (st.threads[t].at == StartLock || st.threads[t].at == StartInsert)
    ensures Lowers(st, StartStep(st, t), t)
  {}

  lemma StartUnlockLowers(st: State, t: Tid)
    requires t < |st.threads| && CanAdvance(st, t) && st.threads[t].at == StartUnlock
    ensures Lowers(st, StartStep(st, t), t)
  {}

  lemma StartConnectLowers(st: State, t: Tid)
    requires t < |st.threads| && CanAdvance(st, t) && st.threads[t].at == StartConnect
    ensures Lowers(st, StartStep(st, t), t)
  {}

  lemma StartLowers(st: State, t: Tid)
    requires t < |st.threads| && CanAdvance(st, t) && InStart(st.threads[t].at)
    ensures Lowers(st, StartStep(st, t), t)
  {
    match st.threads[t].at
    case StartLock => StartLockLowers(st, t);
    case StartInsert => StartLockLowers(st, t);
    case StartUnlock => StartUnlockLowers(st, t);
    case StartConnect => StartConnectLowers(st, t);
  }

  lemma CancelLockLowers(st: State, t: Tid)
    requires t < |st.threads| && CanAdvance(st, t)
    requires st.threads[t].at == CancelLock || st.threads[t].at == CancelUnlock
    ensures Lowers(st, CancelStep(st, t), t)
  {}

  lemma CancelFindLowers(st: State, t: Tid)
    requires t < |st.threads| && CanAdvance(st, t) && st.threads[t].at == CancelFind
    ensures Lowers(st, CancelStep(st, t), t)
  {}

  lemma CancelLockSessionLowers(st: State, t: Tid)
    requires t < |st.threads| && CanAdvance(st, t) && st.threads[t].at == CancelLockSession
    ensures Lowers(st, CancelStep(st, t), t)
  {}

  lemma CancelMarkLowers(st: State, t: Tid)
    requires t < |st.threads| && CanAdvance(st, t)
    requires st.threads[t].at == CancelMark || st.threads[t].at == CancelUnlockSession
    ensures Lowers(st, CancelStep(st, t), t)
  {}

  lemma CancelLowers(st: State, t: Tid)
    requires t < |st.threads| && CanAdvance(st, t) && InCancel(st.threads[t].at)
    ensures Lowers(st, CancelStep(st, t), t)
  {
    match st.threads[t].at
    case CancelLock => CancelLockLowers(st, t);
    case CancelUnlock => CancelLockLowers(st, t);
    case CancelFind => CancelFindLowers(st, t);
    case CancelLockSession => CancelLockSessionLowers(st, t);
    case CancelMark => CancelMarkLowers(st, t);
    case CancelUnlockSession => CancelMarkLowers(st, t);
  }

  lemma HandleLowers(st: State, t: Tid)
    requires t < |st.threads| && CanAdvance(st, t) && st.threads[t].at == Handle
    ensures Lowers(st, HandlerStep(st, t), t)
  {}

  lemma HandlerLockLowers(st: State, t: Tid)
    requires t < |st.threads| && CanAdvance(st, t)
    requires st.threads[t].at == HandlerLock || st.threads[t].at == HandlerUnlock
    ensures Lowers(st, HandlerStep(st, t), t)
  {}

  lemma HandlerCheckHitLowers(st: State, t: Tid)
    requires t < |st.threads| && CanAdvance(st, t) && st.threads[t].at == HandlerCheck
    requires st.sessions[st.threads[t].s].cancelled
    ensures Lowers(st, HandlerStep(st, t), t)
  {}

  lemma HandlerCheckNextLowers(st: State, t: Tid)
    requires t < |st.threads| && CanAdvance(st, t) && st.threads[t].at == HandlerCheck
    requires !st.sessions[st.threads[t].s].cancelled
    ensures Lowers(st, HandlerStep(st, t), t)
  {}

  lemma HandlerLowers(st: State, t: Tid)
    requires t < |st.threads| && CanAdvance(st, t) && InBody(st.threads[t].at)
    ensures Lowers(st, HandlerStep(st, t), t)
  {
    match st.threads[t].at
    case Handle => HandleLowers(st, t);
    case HandlerLock => HandlerLockLowers(st, t);
    case HandlerUnlock => HandlerLockLowers(st, t);
    case HandlerCheck =>
      if st.sessions[st.threads[t].s].cancelled {
        HandlerCheckHitLowers(st, t);
      } else {
        HandlerCheckNextLowers(st, t);
      }
  }

  lemma CompleteLockLowers(st: State, t: Tid)
    requires t < |st.threads| && CanAdvance(st, t) && st.threads[t].at == CompleteLock
    ensures Lowers(st, CompleteStep(st, t), t)
  {}

  lemma CompleteEraseLowers(st: State, t: Tid)
    requires t < |st.threads| && CanAdvance(st, t)
    requires st.threads[t].at == CompleteErase || st.threads[t].at == CompleteUnlock
    ensures Lowers(st, CompleteStep(st, t), t)
  {}

  lemma CompleteResultLowers(st: State, t: Tid)
    requires t < |st.threads| && CanAdvance(st, t) && st.threads[t].at == CompleteResult
    ensures Lowers(st, CompleteStep(st, t), t)
  {}

  lemma CompleteCallLowers(st: State, t: Tid)
    requires t < |st.threads| && CanAdvance(st, t) && st.threads[t].at == CompleteCall
    ensures Lowers(st, CompleteStep(st, t), t)
  {}

  lemma CompleteLowers(st: State, t: Tid)
    requires t < |st.threads| && CanAdvance(st, t) && InComplete(st.threads[t].at)
    ensures Lowers(st, CompleteStep(st, t), t)
  {
    match st.threads[t].at
    case CompleteLock => CompleteLockLowers(st, t);
    case CompleteErase => CompleteEraseLowers(st, t);
    case CompleteUnlock => CompleteEraseLowers(st, t);
    case CompleteResult => CompleteResultLowers(st, t);
    case CompleteCall => CompleteCallLowers(st, t);
  }

  lemma StepLowersThread(st: State, t: Tid)
    requires Enabled(st, Advance(t)) && st.threads[t].at != CloseJoin && ThreadOk(st, t)
    ensures Lowers(st, Step(st, Advance(t)), t)
  {
    var at := st.threads[t].at;
    if InStart(at) {
      StartLowers(st, t);
    } else if InCancel(at) {
      CancelLowers(st, t);
    } else if InBody(at) {
      HandlerLowers(st, t);
    } else {
      CompleteLowers(st, t);
    }
  }

  lemma AdvanceLowers(st: State, t: Tid)
    requires Inv(st) && Enabled(st, Advance(t)) && st.threads[t].at != CloseJoin
    ensures StepsLeft(Step(st, Advance(t))) < StepsLeft(st)
  {
    var st' := Step(st, Advance(t));
    assert ThreadOk(st, t);
    AdvanceDone(st, t);
    StepLowersThread(st, t);
    LoadsDrop(st, st', t);
  }

  lemma LoadsDrop(st: State, st': State, t: Tid)
    requires t < |st.threads| && Framed(st, st', t) && Lowers(st, st', t)
    requires HasSession(st.threads[t].at) ==> st.threads[t].s < |st.sessions|
    requires !Owns(st.threads[t].at) ==> st'.ops == st.ops
    requires Owns(st.threads[t].at) ==> Target(st, t) == st.threads[t].s
    ensures StepsLeft(st') < StepsLeft(st)
  {
    ThreadsLoadAfter(st, st', t, |st.threads|);
    OpsLoadAfter(st, st', Target(st, t), |st.sessions|);
  }

  lemma DispatchLowers(st: State, a: Action)
    requires Inv(st) && Enabled(st, a) && a.Dispatch?
    ensures StepsLeft(Step(st, a)) < StepsLeft(st)
  {
    var st' := Step(st, a);
    ThreadsLoadAfter(st, st', a.t, |st.threads|);
    OpsLoadAfter(st, st', a.s, |st.sessions|);
  }

  lemma StepLowers(st: State, a: Action)
    requires Inv(st) && Enabled(st, a) && !IsCall(a)
    ensures StepsLeft(Step(st, a)) < StepsLeft(st)
  {
    var st' := Step(st, a);
    if a.Advance? && st.threads[a.t].at != CloseJoin {
      AdvanceLowers(st, a.t);
    } else if a.Dispatch? {
      DispatchLowers(st, a);
    } else {
      var t := if a.IosStop? then 0 else a.t;
      if t < |st.threads| {
        ThreadsLoadAfter(st, st', t, |st.threads|);
      }
      OpsLoadAfter(st, st', |st.sessions|, |st.sessions|);
    }
  }

  // ---- Runs without new calls ----

  predicate NoCalls(acts: seq<Action>) {
    forall i | 0 <= i < |acts| :: !IsCall(acts[i])
  }

  lemma {:induction false} NoCallsBounded(st: State, acts: seq<Action>)
    requires Inv(st) && Exec(st, acts).Some? && NoCalls(acts)
    ensures |acts| + StepsLeft(Exec(st, acts).value) <= StepsLeft(st)
    decreases |acts|
  {
    if acts != [] {
      StepLowers(st, acts[0]);
      InvKept(st, acts[0]);
      NoCallsBounded(Step(st, acts[0]), acts[1..]);
    }
  }

  lemma JoiningStep(st: State, a: Action, c: Tid)
    requires Inv(st) && Enabled(st, a)
    requires st.closed || (c < |st.threads| && st.threads[c].at == CloseJoin)
    ensures var st' := Step(st, a); st'.closed || (c < |st'.threads| && st'.threads[c].at == CloseJoin)
  {
    if a.Advance? && st.threads[a.t].at != CloseJoin {
      AdvanceDone(st, a.t);
    }
  }

  lemma {:induction false} JoiningUntilClosed(st: State, acts: seq<Action>, c: Tid)
    requires Inv(st) && Exec(st, acts).Some?
    requires st.closed || (c < |st.threads| && st.threads[c].at == CloseJoin)
    ensures var st' := Exec(st, acts).value; st'.closed || (c < |st'.threads| && st'.threads[c].at == CloseJoin)
    decreases |acts|
  {
    if acts != [] {
      JoiningStep(st, acts[0], c);
      InvKept(st, acts[0]);
      JoiningUntilClosed(Step(st, acts[0]), acts[1..], c);
    }
  }

  // Once Close waits for the pool, every run without new calls is finite, and where it can go no further
  // Close has returned, unless there is a circular wait.
  lemma CloseReturns(st: State, acts: seq<Action>, c: Tid)
    requires Inv(st) && c < |st.threads| && st.threads[c].at == CloseJoin
    requires Exec(st, acts).Some? && NoCalls(acts)
    ensures |acts| <= StepsLeft(st)
    ensures var st' := Exec(st, acts).value;
      (forall x :: Enabled(st', x) ==> IsCall(x)) ==> (st'.closed <==> forall a, b, s :: !CircularWait(st', a, b, s))
  {
    var st' := Exec(st, acts).value;
    NoCallsBounded(st, acts);
    InvAlong(st, acts);
    JoiningUntilClosed(st, acts, c);
    if !st'.closed && forall a, b, s :: !CircularWait(st', a, b, s) {
      ClosingGoesOn(st', c);
    }
    if a, b, s :| CircularWait(st', a, b, s) {
      CircularWaitIsForever(st', [], a, b, s);
    }
  }
}
