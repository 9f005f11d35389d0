// What the asynchronous TCP client guarantees in every interleaving.
module AsyncTcpClientTheorems {
  import opened Errors
  import opened Wrappers
  import opened AsyncTcpClient
  import opened AsyncTcpClientInvariant

  // ---- Cancellation linearizes on the map ----

  // The one callback of a session reports an error exactly when an operation failed or a cancel found the
  // session in the map, and success only after connect, full write and line read in that order.
  lemma CancellationLinearizes(pool: nat, users: nat, acts: seq<Action>, st: State, s: Sid)
    requires Reaches(pool, users, acts, st) && s < |st.sessions| && st.sessions[s].calls > 0
    ensures var x := st.sessions[s];
      && x.calls == 1
      && (x.reported != Success <==> x.ec != Success || x.finds > 0)
      && (x.ec == Success && x.finds > 0 ==> x.reported == Aborted)
      && (x.ec != Success ==> x.reported == x.ec)
      && (x.reported == Success ==> x.progress == Answered)
  {
    ReachesInv(pool, users, acts, st);
    assert SessionOk(st, s);
  }

  // After its erase step a session is out of reach: no later cancel finds it or changes its flag.
  lemma ErasedStep(st: State, a: Action, s: Sid)
    requires Inv(st) && Enabled(st, a) && s < |st.sessions| && st.sessions[s].erased
    ensures var st' := Step(st, a);
      && s < |st'.sessions| && st'.sessions[s].erased
      && st'.sessions[s].finds == st.sessions[s].finds && st'.sessions[s].cancelled == st.sessions[s].cancelled
  {
    if a.Advance? && st.threads[a.t].at != CloseJoin {
      AdvanceDone(st, a.t);
    }
  }

  lemma {:induction false} ErasedIsOutOfReach(st: State, acts: seq<Action>, s: Sid)
    requires Inv(st) && Exec(st, acts).Some? && s < |st.sessions| && st.sessions[s].erased
    ensures var st' := Exec(st, acts).value;
      && s < |st'.sessions| && st'.sessions[s].erased
      && st'.sessions[s].finds == st.sessions[s].finds && st'.sessions[s].cancelled == st.sessions[s].cancelled
    decreases |acts|
  {
    if acts != [] {
      ErasedStep(st, acts[0], s);
      InvKept(st, acts[0]);
      ErasedIsOutOfReach(Step(st, acts[0]), acts[1..], s);
    }
  }

  // Thread t is in a cancel that has not found a session.
  predicate Searching(st: State, t: Tid) {
    && t < |st.threads|
    && (st.threads[t].at == CancelLock || st.threads[t].at == CancelFind || st.threads[t].at == CancelUnlock)
    && (st.threads[t].at == CancelFind ==> st.threads[t].id !in st.active)
  }

  // As long as the cancel of t finds nothing, no step of t changes a session, the map or the operations; and
  // while t holds the map lock no other thread changes the map, so that what the search saw stays true.
  predicate FindsNothing(st: State, acts: seq<Action>, t: Tid)
    decreases |acts|
  {
    acts != [] && Searching(st, t) && Enabled(st, acts[0]) ==>
      var st' := Step(st, acts[0]);
      && (acts[0] == Advance(t) ==> st'.sessions == st.sessions && st'.active == st.active && st'.ops == st.ops)
      && (acts[0] != Advance(t) ==> t < |st'.threads| && st'.threads[t] == st.threads[t])
      && (acts[0] != Advance(t) && HoldsMap(st.threads[t].at) ==> st'.active == st.active)
      && FindsNothing(st', acts[1..], t)
  }

  lemma SearchStep(st: State, a: Action, t: Tid)
    requires Inv(st) && Enabled(st, a) && Searching(st, t)
    ensures var st' := Step(st, a);
      && (a == Advance(t) ==> st'.sessions == st.sessions && st'.active == st.active && st'.ops == st.ops)
      && (a != Advance(t) ==> t < |st'.threads| && st'.threads[t] == st.threads[t])
      && (a != Advance(t) && HoldsMap(st.threads[t].at) ==> st'.active == st.active)
  {
    assert ThreadOk(st, t);
    if a == Advance(t) {
      OwnSearchStep(st, t);
    } else if a.Advance? && st.threads[a.t].at != CloseJoin {
      assert ThreadOk(st, a.t);
      AdvanceDone(st, a.t);
    }
  }

  lemma OwnSearchStep(st: State, t: Tid)
    requires Enabled(st, Advance(t)) && Searching(st, t)
    ensures var st' := Step(st, Advance(t)); st'.sessions == st.sessions && st'.active == st.active && st'.ops == st.ops
  {
    assert Step(st, Advance(t)) == CancelStep(st, t);
  }

  // A cancel that finds nothing changes nothing, however its steps are interleaved with those of others.
  lemma {:induction false} CancelOfNothing(st: State, acts: seq<Action>, t: Tid)
    requires Inv(st) && Exec(st, acts).Some?
    ensures FindsNothing(st, acts, t)
    decreases |acts|
  {
    if acts != [] && Searching(st, t) {
      SearchStep(st, acts[0], t);
      InvKept(st, acts[0]);
      CancelOfNothing(Step(st, acts[0]), acts[1..], t);
    }
  }

  // ---- Deadlock ----

  // a is in CancelRequest, holds the map lock and waits for the cancel lock of s; b is in a cancelled
  // handler of s, holds that cancel lock and waits for the map lock.
  predicate CircularWait(st: State, a: Tid, b: Tid, s: Sid) {
    && a < |st.threads| && st.threads[a].at == CancelLockSession && st.threads[a].s == s
    && b < |st.threads| && st.threads[b].at == CompleteLock && st.threads[b].held && st.threads[b].s == s
  }

  // The thread that holds the lock t waits for.
  function Blocker(st: State, t: Tid): Option<Tid>
    requires t < |st.threads|
  {
    var th := st.threads[t];
    if WaitsMap(th.at) then st.mapLock
    else if WaitsSession(th.at) && th.s < |st.sessions| then st.sessions[th.s].lock
    else None
  }

  predicate BlockedBy(st: State, d: set<Tid>, t: Tid) {
    t < |st.threads| && Blocker(st, t).Some? && Blocker(st, t).value in d
  }

  // Every thread of d waits for a lock that a thread of d holds.
  predicate Deadlocked(st: State, d: set<Tid>) {
    d != {} && forall t {:trigger BlockedBy(st, d, t)} | t in d :: BlockedBy(st, d, t)
  }

  lemma CircularWaitNeedsTwoFinds(pool: nat, users: nat, acts: seq<Action>, st: State, a: Tid, b: Tid, s: Sid)
    requires Reaches(pool, users, acts, st) && CircularWait(st, a, b, s)
    ensures s < |st.sessions| && st.sessions[s].finds >= 2
  {
    ReachesInv(pool, users, acts, st);
    assert ThreadOk(st, a) && ThreadOk(st, b);
  }

  // One or two steps along the chain of blockers lead to the holder of the map lock.
  lemma DeadlockHoldsMap(st: State, d: set<Tid>) returns (a: Tid)
    requires Inv(st) && Deadlocked(st, d)
    ensures a in d && st.mapLock == Some(a)
  {
    var t :| t in d;
    assert BlockedBy(st, d, t) && ThreadOk(st, t);
    a := Blocker(st, t).value;
    if WaitsSession(st.threads[t].at) {
      assert SessionOk(st, st.threads[t].s);
      assert BlockedBy(st, d, a) && ThreadOk(st, a);
      a := Blocker(st, a).value;
    }
  }

  lemma DeadlockIsCircular(st: State, d: set<Tid>) returns (a: Tid, b: Tid, s: Sid)
    requires Inv(st) && Deadlocked(st, d)
    ensures CircularWait(st, a, b, s)
  {
    a := DeadlockHoldsMap(st, d);
    assert BlockedBy(st, d, a) && ThreadOk(st, a);
    s := st.threads[a].s;
    assert SessionOk(st, s);
    b := Blocker(st, a).value;
    assert BlockedBy(st, d, b) && ThreadOk(st, b);
  }

  // The only deadlock is the circular wait between the map lock and one cancel lock.
  lemma DeadlockIffCircular(pool: nat, users: nat, acts: seq<Action>, st: State)
    requires Reaches(pool, users, acts, st)
    ensures (exists d :: Deadlocked(st, d)) <==> (exists a, b, s :: CircularWait(st, a, b, s))
  {
    ReachesInv(pool, users, acts, st);
    if d :| Deadlocked(st, d) {
      var a, b, s := DeadlockIsCircular(st, d);
    }
    if a, b, s :| CircularWait(st, a, b, s) {
      CircularIsDeadlock(st, a, b, s);
    }
  }

  lemma CircularIsDeadlock(st: State, a: Tid, b: Tid, s: Sid)
    requires Inv(st) && CircularWait(st, a, b, s)
    ensures Deadlocked(st, {a, b})
  {
    assert ThreadOk(st, a) && ThreadOk(st, b);
    assert BlockedBy(st, {a, b}, a) && BlockedBy(st, {a, b}, b);
  }

  // With at most one cancel finding each session there is no deadlock, for any number of threads.
  lemma DeadlockFree(pool: nat, users: nat, acts: seq<Action>, st: State, d: set<Tid>)
    requires Reaches(pool, users, acts, st)
    requires forall s | 0 <= s < |st.sessions| :: st.sessions[s].finds <= 1
    ensures !Deadlocked(st, d)
  {
    ReachesInv(pool, users, acts, st);
    if Deadlocked(st, d) {
      var a, b, s := DeadlockIsCircular(st, d);
      CircularWaitNeedsTwoFinds(pool, users, acts, st, a, b, s);
    }
  }

  lemma CircularStep(st: State, x: Action, a: Tid, b: Tid, s: Sid)
    requires Inv(st) && CircularWait(st, a, b, s) && Enabled(st, x)
    ensures CircularWait(Step(st, x), a, b, s)
  {
    assert ThreadOk(st, a) && ThreadOk(st, b);
    if x.Advance? && st.threads[x.t].at != CloseJoin {
      AdvanceDone(st, x.t);
    }
  }

  // A circular wait is for ever: no step of any thread ends it, the callback of s never runs and Close
  // never returns.
  lemma {:induction false} CircularWaitIsForever(st: State, acts: seq<Action>, a: Tid, b: Tid, s: Sid)
    requires Inv(st) && CircularWait(st, a, b, s) && Exec(st, acts).Some?
    ensures var st' := Exec(st, acts).value;
      CircularWait(st', a, b, s) && s < |st'.sessions| && st'.sessions[s].calls == 0 && !st'.closed
    decreases |acts|
  {
    if acts == [] {
      assert ThreadOk(st, b);
    } else {
      CircularStep(st, acts[0], a, b, s);
      InvKept(st, acts[0]);
      CircularWaitIsForever(Step(st, acts[0]), acts[1..], a, b, s);
    }
  }

  // Without a circular wait some thread can go on, whatever the threads are waiting for.
  lemma Progress(st: State, t: Tid) returns (u: Tid)
    requires Inv(st) && t < |st.threads| && st.threads[t].at != Idle && st.threads[t].at != CloseJoin
    requires forall a, b, s :: !CircularWait(st, a, b, s)
    ensures Enabled(st, Advance(u)) && st.threads[u].at != CloseJoin
  {
    u := t;
    if !Enabled(st, Advance(t)) {
      assert ThreadOk(st, t);
      if WaitsMap(st.threads[t].at) {
        u := MapHolderMoves(st);
      } else {
        u := SessionHolderMoves(st, st.threads[t].s);
      }
    }
  }

  lemma MapHolderMoves(st: State) returns (u: Tid)
    requires Inv(st) && st.mapLock.Some?
    requires forall a, b, s :: !CircularWait(st, a, b, s)
    ensures Enabled(st, Advance(u)) && st.threads[u].at != CloseJoin
  {
    u := st.mapLock.value;
    assert ThreadOk(st, u);
    var th := st.threads[u];
    assert th.id in st.active ==> EntryOk(st, th.id);
    if !Enabled(st, Advance(u)) {
      assert SessionOk(st, th.s);
      var v := st.sessions[th.s].lock.value;
      assert ThreadOk(st, v);
      assert !CircularWait(st, u, v, th.s);
      u := v;
    }
  }

  lemma SessionHolderMoves(st: State, s: Sid) returns (u: Tid)
    requires Inv(st) && s < |st.sessions| && st.sessions[s].lock.Some?
    requires forall a, b, s :: !CircularWait(st, a, b, s)
    ensures Enabled(st, Advance(u)) && st.threads[u].at != CloseJoin
  {
    assert SessionOk(st, s);
    u := st.sessions[s].lock.value;
    assert ThreadOk(st, u);
    if !Enabled(st, Advance(u)) {
      u := MapHolderMoves(st);
    }
  }

  // A new call by a user thread.
  predicate IsCall(a: Action) {
    a.CallStart? || a.CallCancel? || a.CallClose?
  }

  // While Close waits in `join` and there is no circular wait, some step other than a new call is possible.
  lemma ClosingGoesOn(st: State, c: Tid)
    requires Inv(st) && c < |st.threads| && st.threads[c].at == CloseJoin
    requires forall a, b, s :: !CircularWait(st, a, b, s)
    ensures exists x :: Enabled(st, x) && !IsCall(x)
  {
    assert ThreadOk(st, c);
    if t :| 0 <= t < |st.threads| && st.threads[t].at != Idle && st.threads[t].at != CloseJoin {
      var u := Progress(st, t);
      assert Enabled(st, Advance(u));
    } else if u :| 0 <= u < st.pool && u !in st.exited {
      assert ThreadOk(st, u) && PoolIdle(st, u);
      if st.stopped {
        assert Enabled(st, PoolExit(u));
      } else if s :| s in st.ops {
        assert Enabled(st, Dispatch(u, s, Success, ""));
      } else {
        assert Busy(st) == {};
        assert Enabled(st, IosStop);
      }
    } else {
      assert Enabled(st, Advance(c));
    }
  }

  // ---- Conservation and drain ----

  ghost predicate Running(st: State, s: Sid) {
    exists t :: 0 <= t < |st.threads| && Owns(st.threads[t].at) && st.threads[t].s == s
  }

  // Every session is in exactly one place: an operation in flight, the hands of one thread, or delivered
  // by exactly one callback.
  lemma SessionsConserved(pool: nat, users: nat, acts: seq<Action>, st: State, s: Sid)
    requires Reaches(pool, users, acts, st) && s < |st.sessions|
    ensures s in st.ops ==> !Running(st, s) && st.sessions[s].calls == 0
    ensures Running(st, s) ==> s !in st.ops && st.sessions[s].calls == 0
    ensures s in st.ops || Running(st, s) || st.sessions[s].calls == 1
    ensures forall t, u | 0 <= t < |st.threads| && 0 <= u < |st.threads|
              && Owns(st.threads[t].at) && Owns(st.threads[u].at) && st.threads[t].s == s && st.threads[u].s == s ::
              t == u
  {
    ReachesInv(pool, users, acts, st);
    assert SessionOk(st, s);
    forall t | 0 <= t < |st.threads| && Owns(st.threads[t].at) && st.threads[t].s == s
      ensures s !in st.ops && st.sessions[s].calls == 0 && st.sessions[s].runner == t
    {
      assert ThreadOk(st, t);
    }
  }

  // When Close returns with a thread in the pool, a session has had its one callback iff its connect was
  // started before the io_service stopped, and the map holds none of these any more.
  lemma CloseDrains(pool: nat, users: nat, acts: seq<Action>, st: State)
    requires Reaches(pool, users, acts, st) && st.closed && pool > 0
    ensures forall s | 0 <= s < |st.sessions| :: st.sessions[s].calls == if st.sessions[s].early then 1 else 0
    ensures forall id | id in st.active :: st.active[id] < |st.sessions| && !st.sessions[st.active[id]].early
  {
    ReachesInv(pool, users, acts, st);
    InitInv(pool, users);
    PoolSize(Init(pool, users), acts);
    assert 0 in st.exited;
    forall s | 0 <= s < |st.sessions|
      ensures st.sessions[s].calls == if st.sessions[s].early then 1 else 0
    {
      assert SessionOk(st, s);
    }
    forall id | id in st.active
      ensures st.active[id] < |st.sessions| && !st.sessions[st.active[id]].early
    {
      assert EntryOk(st, id) && SessionOk(st, st.active[id]);
    }
  }

  lemma EarlyStep(st: State, a: Action, s: Sid)
    requires Inv(st) && Enabled(st, a) && s < |st.sessions| && st.sessions[s].early
    ensures s < |Step(st, a).sessions| && Step(st, a).sessions[s].early
  {
    if a.Advance? && st.threads[a.t].at != CloseJoin {
      AdvanceDone(st, a.t);
    }
  }

  lemma {:induction false} EarlyStays(st: State, acts: seq<Action>, s: Sid)
    requires Inv(st) && Exec(st, acts).Some? && s < |st.sessions| && st.sessions[s].early
    ensures var st' := Exec(st, acts).value; s < |st'.sessions| && st'.sessions[s].early
    decreases |acts|
  {
    if acts != [] {
      EarlyStep(st, acts[0], s);
      InvKept(st, acts[0]);
      EarlyStays(Step(st, acts[0]), acts[1..], s);
    }
  }

  // As long as the work guard is up, every session whose starting call has returned is connected in time.
  lemma StartedIsEarly(st: State, s: Sid)
    requires Inv(st) && st.guard && s < |st.sessions|
    requires forall t | 0 <= t < |st.threads| :: !(InStart(st.threads[t].at) && st.threads[t].s == s)
    ensures st.sessions[s].early
  {
    var t := st.sessions[s].runner;
    assert SessionOk(st, s) && (t < |st.threads| ==> ThreadOk(st, t));
  }

  // The caller's form: a session whose starting call has returned before Close is called has had its one
  // callback when Close returns.
  lemma StartedBeforeClose(pool: nat, users: nat, before: seq<Action>, st: State, after: seq<Action>, s: Sid)
    requires Reaches(pool, users, before, st) && pool > 0 && st.guard && s < |st.sessions|
    requires forall t | 0 <= t < |st.threads| :: !(InStart(st.threads[t].at) && st.threads[t].s == s)
    requires Exec(st, after).Some? && Exec(st, after).value.closed
    ensures s < |Exec(st, after).value.sessions| && Exec(st, after).value.sessions[s].calls == 1
  {
    var st' := Exec(st, after).value;
    ReachesInv(pool, users, before, st);
    InitInv(pool, users);
    PoolSize(Init(pool, users), before);
    StartedIsEarly(st, s);
    EarlyStays(st, after, s);
    InvAlong(st, after);
    PoolSize(st, after);
    assert 0 in st'.exited && SessionOk(st', s);
  }

  lemma LateStep(st: State, a: Action, s: Sid)
    requires Inv(st) && Enabled(st, a) && st.stopped && s < |st.sessions| && !st.sessions[s].early
    ensures var st' := Step(st, a); st'.stopped && s < |st'.sessions| && !st'.sessions[s].early
  {
    if a.Advance? && st.threads[a.t].at != CloseJoin {
      AdvanceDone(st, a.t);
    }
  }

  // A session that is not connected when the io_service stops gets no callback in any continuation, and is
  // never erased.
  lemma {:induction false} LateSessionIsLost(st: State, acts: seq<Action>, s: Sid)
    requires Inv(st) && Exec(st, acts).Some? && st.stopped && s < |st.sessions| && !st.sessions[s].early
    ensures var st' := Exec(st, acts).value;
      s < |st'.sessions| && !st'.sessions[s].early && st'.sessions[s].calls == 0 && !st'.sessions[s].erased
    decreases |acts|
  {
    if acts == [] {
      assert SessionOk(st, s);
    } else {
      LateStep(st, acts[0], s);
      InvKept(st, acts[0]);
      LateSessionIsLost(Step(st, acts[0]), acts[1..], s);
    }
  }

  lemma {:induction false} PoolSize(st: State, acts: seq<Action>)
    requires Inv(st) && Exec(st, acts).Some?
    ensures Exec(st, acts).value.pool == st.pool
    decreases |acts|
  {
    if acts != [] {
      if acts[0].Advance? && st.threads[acts[0].t].at != CloseJoin {
        AdvanceDone(st, acts[0].t);
      }
      InvKept(st, acts[0]);
      PoolSize(Step(st, acts[0]), acts[1..]);
    }
  }

  // The hypothesis on the pool is needed: without a pool thread no session is ever erased or delivered.
  lemma NoPoolNoCallback(users: nat, acts: seq<Action>, st: State, s: Sid)
    requires Reaches(0, users, acts, st) && s < |st.sessions|
    ensures !st.sessions[s].erased && st.sessions[s].calls == 0
  {
    ReachesInv(0, users, acts, st);
    InitInv(0, users);
    PoolSize(Init(0, users), acts);
    assert SessionOk(st, s);
  }

  // ---- The map and the live sessions ----

  // Whatever the ids, an entry of the map leads to a live session with that id.
  lemma EntriesAreLive(pool: nat, users: nat, acts: seq<Action>, st: State, id: RequestId)
    requires Reaches(pool, users, acts, st) && id in st.active
    ensures var s := st.active[id]; s < |st.sessions| && st.sessions[s].id == id && Live(st.sessions[s])
  {
    ReachesInv(pool, users, acts, st);
    assert EntryOk(st, id);
  }

  // No two live sessions use the same request id.
  predicate Distinct(st: State) {
    forall s, u | 0 <= s < u < |st.sessions| && Live(st.sessions[s]) && Live(st.sessions[u]) ::
      st.sessions[s].id != st.sessions[u].id
  }

  predicate Listed(st: State, s: Sid)
    requires s < |st.sessions|
  {
    var x := st.sessions[s];
    Live(x) ==> x.id in st.active && st.active[x.id] == s
  }

  // The map is exactly the live sessions.
  predicate Exact(st: State) {
    && (forall s | 0 <= s < |st.sessions| :: Listed(st, s))
    && (forall id | id in st.active :: EntryOk(st, id))
  }

  predicate DistinctAlong(st: State, acts: seq<Action>)
    decreases |acts|
  {
    Distinct(st) && (acts != [] ==> Enabled(st, acts[0]) && DistinctAlong(Step(st, acts[0]), acts[1..]))
  }

  predicate ExactAlong(st: State, acts: seq<Action>)
    decreases |acts|
  {
    Exact(st) && (acts != [] ==> Enabled(st, acts[0]) && ExactAlong(Step(st, acts[0]), acts[1..]))
  }

  lemma ExactIsDistinct(st: State)
    requires Exact(st)
    ensures Distinct(st)
  {
    forall s, u | 0 <= s < u < |st.sessions| && Live(st.sessions[s]) && Live(st.sessions[u])
      ensures st.sessions[s].id != st.sessions[u].id
    {
      assert Listed(st, s) && Listed(st, u);
    }
  }

  lemma InsertLists(st: State, st': State, t: Tid, s: Sid)
    requires t < |st.threads| && st.threads[t].at == StartInsert && HasSession(st.threads[t].at)
    requires ThreadOk(st, t) && Done(st, st', t) && s < |st.sessions| && Listed(st, s) && Distinct(st')
    ensures Listed(st', s)
  {
    var u := st.threads[t].s;
    assert s < u && Live(st'.sessions[s]) && Live(st'.sessions[u]) ==> st'.sessions[s].id != st'.sessions[u].id;
    assert u < s && Live(st'.sessions[u]) && Live(st'.sessions[s]) ==> st'.sessions[u].id != st'.sessions[s].id;
  }

  lemma EraseLists(st: State, st': State, t: Tid, s: Sid)
    requires t < |st.threads| && st.threads[t].at == CompleteErase
    requires ThreadOk(st, t) && Done(st, st', t) && s < |st.sessions| && Listed(st, s) && Distinct(st)
    ensures Listed(st', s)
  {}

  lemma AdvanceLists(st: State, t: Tid, s: Sid)
    requires Inv(st) && Enabled(st, Advance(t)) && st.threads[t].at != CloseJoin
    requires Distinct(st) && Distinct(Step(st, Advance(t))) && s < |st.sessions| && Listed(st, s)
    ensures s < |Step(st, Advance(t)).sessions| && Listed(Step(st, Advance(t)), s)
  {
    var st' := Step(st, Advance(t));
    assert ThreadOk(st, t);
    AdvanceDone(st, t);
    if st.threads[t].at == StartInsert {
      InsertLists(st, st', t, s);
    } else if st.threads[t].at == CompleteErase {
      EraseLists(st, st', t, s);
    }
  }

  lemma OtherLists(st: State, a: Action, s: Sid)
    requires Enabled(st, a) && (a.Advance? ==> st.threads[a.t].at == CloseJoin)
    requires s < |Step(st, a).sessions| && (s < |st.sessions| ==> Listed(st, s))
    ensures Listed(Step(st, a), s)
  {}

  lemma ExactKept(st: State, a: Action)
    requires Inv(st) && Enabled(st, a) && Exact(st) && Distinct(Step(st, a))
    ensures Exact(Step(st, a))
  {
    var st' := Step(st, a);
    ExactIsDistinct(st);
    InvKept(st, a);
    forall s | 0 <= s < |st'.sessions| ensures Listed(st', s) {
      if a.Advance? && st.threads[a.t].at != CloseJoin {
        AdvanceDone(st, a.t);
        AdvanceLists(st, a.t, s);
      } else {
        OtherLists(st, a, s);
      }
    }
  }

  lemma {:induction false} ExactIffDistinct(st: State, acts: seq<Action>)
    requires Inv(st) && Exec(st, acts).Some? && Exact(st)
    ensures ExactAlong(st, acts) <==> DistinctAlong(st, acts)
    decreases |acts|
  {
    ExactIsDistinct(st);
    if acts != [] {
      var st1 := Step(st, acts[0]);
      InvKept(st, acts[0]);
      if Distinct(st1) {
        ExactKept(st, acts[0]);
        ExactIffDistinct(st1, acts[1..]);
      } else if Exact(st1) {
        ExactIsDistinct(st1);
      }
    }
  }

  // The map is exactly the live sessions in every state of a run iff no two live sessions share an id in any
  // of them.
  lemma MapIsTheLiveSessions(pool: nat, users: nat, acts: seq<Action>)
    requires Exec(Init(pool, users), acts).Some?
    ensures ExactAlong(Init(pool, users), acts) <==> DistinctAlong(Init(pool, users), acts)
  {
    InitInv(pool, users);
    ExactIffDistinct(Init(pool, users), acts);
  }
}
