// Runs that show why the theorems about the asynchronous TCP client need their hypotheses.
module AsyncTcpClientWitnesses {
  import opened Errors
  import opened Wrappers
  import opened AsyncTcpClient
  import opened AsyncTcpClientInvariant
  import opened AsyncTcpClientTheorems

  // ---- Runs, one step at a time ----

  lemma {:induction false} ExecConcat(st: State, xs: seq<Action>, ys: seq<Action>)
    requires Exec(st, xs).Some?
    ensures Exec(st, xs + ys) == Exec(Exec(st, xs).value, ys)
    decreases |xs|
  {
    if xs == [] {
      assert xs + ys == ys;
    } else {
      assert (xs + ys)[1..] == xs[1..] + ys;
      ExecConcat(Step(st, xs[0]), xs[1..], ys);
    }
  }

  lemma Then(from: State, acts: seq<Action>, st: State, a: Action) returns (acts': seq<Action>, st': State)
    requires Exec(from, acts) == Some(st) && Enabled(st, a)
    ensures Exec(from, acts') == Some(st') && st' == Step(st, a)
  {
    acts', st' := acts + [a], Step(st, a);
    assert [a][1..] == [];
    assert Exec(st, [a]) == Exec(st', []);
    ExecConcat(from, acts, [a]);
  }

  // The same, step function by step function.
  lemma ThenStart(from: State, acts: seq<Action>, st: State, t: Tid) returns (acts': seq<Action>, st': State)
    requires Exec(from, acts) == Some(st) && t < |st.threads| && CanAdvance(st, t) && InStart(st.threads[t].at)
    ensures Exec(from, acts') == Some(st') && st' == StartStep(st, t)
  {
    acts', st' := Then(from, acts, st, Advance(t));
  }

  lemma ThenCancel(from: State, acts: seq<Action>, st: State, t: Tid) returns (acts': seq<Action>, st': State)
    requires Exec(from, acts) == Some(st) && t < |st.threads| && CanAdvance(st, t) && InCancel(st.threads[t].at)
    ensures Exec(from, acts') == Some(st') && st' == CancelStep(st, t)
  {
    acts', st' := Then(from, acts, st, Advance(t));
  }

  lemma ThenHandler(from: State, acts: seq<Action>, st: State, t: Tid) returns (acts': seq<Action>, st': State)
    requires Exec(from, acts) == Some(st) && t < |st.threads| && CanAdvance(st, t) && InBody(st.threads[t].at)
    ensures Exec(from, acts') == Some(st') && st' == HandlerStep(st, t)
  {
    acts', st' := Then(from, acts, st, Advance(t));
  }

  lemma ThenComplete(from: State, acts: seq<Action>, st: State, t: Tid) returns (acts': seq<Action>, st': State)
    requires Exec(from, acts) == Some(st) && t < |st.threads| && CanAdvance(st, t) && InComplete(st.threads[t].at)
    ensures Exec(from, acts') == Some(st') && st' == CompleteStep(st, t)
  {
    acts', st' := Then(from, acts, st, Advance(t));
  }

  // ---- A second cancel ----

  // The connect or write of s completes without an error on thread p.
  lemma RunHandle(st: State, p: Tid, s: Sid) returns (acts: seq<Action>, st': State)
    requires PoolIdle(st, p) && !st.stopped && s < |st.sessions| && s in st.ops && st.ops[s] != Read
    ensures Exec(st, acts) == Some(st')
    ensures var x, th := st.sessions[s], Thread(HandlerLock, s, 0, st.ops[s], Success, "", false);
      st' == Put(st, p, th, s, x.(runner := p, progress := After(x.progress, st.ops[s]))).(ops := st.ops - {s})
  {
    var x, th := st.sessions[s].(runner := p), Thread(Handle, s, 0, st.ops[s], Success, "", false);
    var a1, s1 := Then(st, [], st, Dispatch(p, s, Success, ""));
    assert s1 == Put(st, p, th, s, x).(ops := st.ops - {s});
    acts, st' := ThenHandler(st, a1, s1, p);
    PutTwice(st, p, th, th.(at := HandlerLock), s, x, x.(progress := After(x.progress, st.ops[s])));
  }

  // And its handler sees the flag.
  lemma RunCancelledHandler(st: State, p: Tid, s: Sid) returns (acts: seq<Action>, st': State)
    requires PoolIdle(st, p) && !st.stopped && s < |st.sessions| && s in st.ops && st.ops[s] != Read
    requires st.sessions[s].cancelled && st.sessions[s].lock == None
    ensures Exec(st, acts) == Some(st')
    ensures st' == st.(threads := st'.threads, sessions := st'.sessions, ops := st.ops - {s})
    ensures |st'.threads| == |st.threads|
    ensures forall t | 0 <= t < |st.threads| && t != p :: st'.threads[t] == st.threads[t]
    ensures st'.threads[p].at == CompleteLock && st'.threads[p].held && st'.threads[p].s == s
    ensures |st'.sessions| == |st.sessions|
    ensures st'.sessions[s].id == st.sessions[s].id && st'.sessions[s].finds == st.sessions[s].finds
  {
    var th := Thread(HandlerLock, s, 0, st.ops[s], Success, "", false);
    var xs, s2 := RunHandle(st, p, s);
    var a3, s3 := ThenHandler(st, xs, s2, p);
    assert s3.threads[p] == th.(at := HandlerCheck) && s3.sessions[s].cancelled;
    acts, st' := ThenHandler(st, a3, s3, p);
    assert st'.threads[p] == th.(at := CompleteLock, held := true);
  }

  // CancelRequest on thread u up to the search.
  lemma RunCancelLock(st: State, u: Tid, id: RequestId) returns (acts: seq<Action>, st': State)
    requires UserIdle(st, u) && st.mapLock == None
    ensures Exec(st, acts) == Some(st')
    ensures st' == Go(st, u, IDLE.(at := CancelFind, id := id)).(mapLock := Some(u))
  {
    var a1, s1 := Then(st, [], st, CallCancel(u, id));
    assert s1 == Go(st, u, IDLE.(at := CancelLock, id := id));
    acts, st' := ThenCancel(st, a1, s1, u);
    assert st'.threads == st.threads[u := IDLE.(at := CancelFind, id := id)];
  }

  lemma FindStep(st: State, u: Tid, s: Sid)
    requires u < |st.threads| && st.threads[u].at == CancelFind && s < |st.sessions|
    requires st.threads[u].id in st.active && st.active[st.threads[u].id] == s
    ensures CanAdvance(st, u)
    ensures var th, x := st.threads[u], st.sessions[s];
      CancelStep(st, u) == Put(st, u, th.(at := CancelLockSession, s := s), s, x.(finds := x.finds + 1))
  {}

  lemma PutTwice(st: State, t: Tid, th1: Thread, th2: Thread, s: Sid, x1: Session, x2: Session)
    requires t < |st.threads| && s < |st.sessions|
    ensures Put(Put(st, t, th1, s, x1), t, th2, s, x2) == Put(st, t, th2, s, x2)
    ensures Go(Put(st, t, th1, s, x1), t, th2) == Put(st, t, th2, s, x1)
  {
    assert st.threads[t := th1][t := th2] == st.threads[t := th2];
    assert st.sessions[s := x1][s := x2] == st.sessions[s := x2];
  }

  lemma PutAfterGo(st: State, t: Tid, th1: Thread, th2: Thread, s: Sid, x: Session)
    requires t < |st.threads| && s < |st.sessions|
    ensures Put(Go(st, t, th1), t, th2, s, x) == Put(st, t, th2, s, x)
  {
    assert st.threads[t := th1][t := th2] == st.threads[t := th2];
  }

  // Then it finds session s.
  lemma RunCancelFind(st: State, u: Tid, s: Sid, id: RequestId) returns (acts: seq<Action>, st': State)
    requires UserIdle(st, u) && st.mapLock == None && s < |st.sessions| && id in st.active && st.active[id] == s
    ensures Exec(st, acts) == Some(st')
    ensures var x := st.sessions[s];
      st' == Put(st, u, IDLE.(at := CancelLockSession, s := s, id := id), s, x.(finds := x.finds + 1))
             .(mapLock := Some(u))
  {
    var a1, s1 := RunCancelLock(st, u, id);
    FindStep(s1, u, s);
    acts, st' := ThenCancel(st, a1, s1, u);
    PutAfterGo(st, u, IDLE.(at := CancelFind, id := id), st'.threads[u], s, st'.sessions[s]);
  }

  // From every state in which a session of the map is flagged, its connect or write is in flight, the locks
  // are free, and a user thread and a pool thread are idle, a second cancel can lead into the circular wait.
  lemma SecondCancelDeadlocks(st: State, s: Sid, p: Tid, u: Tid) returns (acts: seq<Action>, st': State)
    requires PoolIdle(st, p) && UserIdle(st, u) && !st.stopped && st.mapLock == None
    requires s < |st.sessions| && s in st.ops && st.ops[s] != Read
    requires st.sessions[s].cancelled && st.sessions[s].lock == None
    requires st.sessions[s].id in st.active && st.active[st.sessions[s].id] == s
    ensures Exec(st, acts) == Some(st') && CircularWait(st', u, p, s)
    ensures |st'.sessions| == |st.sessions| && st'.sessions[s].finds == st.sessions[s].finds + 1
  {
    var xs, st1 := RunCancelledHandler(st, p, s);
    var ys, st2 := RunCancelFind(st1, u, s, st.sessions[s].id);
    ExecConcat(st, xs, ys);
    acts, st' := xs + ys, st2;
  }

  // ---- From a new client ----

  // A session of thread u between registration and the start of its connect.
  function NewSession(id: RequestId, u: Tid): Session {
    Session(id, Success, "", false, None, true, false, 0, Nothing, 0, Success, None, None, "", false, u)
  }

  // EmulateLongComputationOp on thread u, from the map lock to the insertion.
  lemma RunInsert(st: State, u: Tid, s: Sid, id: RequestId) returns (acts: seq<Action>, st': State)
    requires u < |st.threads| && st.threads[u] == IDLE.(at := StartLock, s := s) && st.mapLock == None
    requires s < |st.sessions| && st.sessions[s] == NewSession(id, u).(registered := false)
    ensures Exec(st, acts) == Some(st')
    ensures st' == Put(st, u, IDLE.(at := StartUnlock, s := s), s, NewSession(id, u))
                   .(mapLock := Some(u), active := st.active[id := s])
  {
    var th, x := IDLE.(at := StartInsert, s := s), NewSession(id, u);
    var a1, s1 := ThenStart(st, [], st, u);
    assert s1 == Go(st, u, th).(mapLock := Some(u));
    acts, st' := ThenStart(st, a1, s1, u);
    PutAfterGo(st, u, th, th.(at := StartUnlock), s, x);
  }

  // From there to the start of the connect.
  lemma RunConnect(st: State, u: Tid, s: Sid) returns (acts: seq<Action>, st': State)
    requires u < |st.threads| && st.threads[u] == IDLE.(at := StartUnlock, s := s) && s < |st.sessions|
    ensures Exec(st, acts) == Some(st')
    ensures st' == Put(st, u, IDLE, s, st.sessions[s].(early := !st.stopped))
                   .(mapLock := None, ops := st.ops[s := Connect], outstanding := st.outstanding + 1)
  {
    var th := IDLE.(at := StartConnect, s := s);
    var a1, s1 := ThenStart(st, [], st, u);
    assert s1 == Go(st, u, th).(mapLock := None);
    acts, st' := ThenStart(st, a1, s1, u);
    PutAfterGo(st, u, th, IDLE, s, st.sessions[s].(early := !st.stopped));
  }

  lemma RunRegister(st: State, u: Tid, s: Sid, id: RequestId) returns (acts: seq<Action>, st': State)
    requires u < |st.threads| && st.threads[u] == IDLE.(at := StartLock, s := s) && st.mapLock == None
    requires s < |st.sessions| && st.sessions[s] == NewSession(id, u).(registered := false)
    ensures Exec(st, acts) == Some(st')
    ensures st' == Put(st, u, IDLE, s, NewSession(id, u).(early := !st.stopped))
                   .(active := st.active[id := s], ops := st.ops[s := Connect], outstanding := st.outstanding + 1)
  {
    var xs, st1 := RunInsert(st, u, s, id);
    var ys, st2 := RunConnect(st1, u, s);
    ExecConcat(st, xs, ys);
    acts, st' := xs + ys, st2;
    var x := NewSession(id, u);
    PutTwice(st, u, IDLE.(at := StartUnlock, s := s), IDLE, s, x, x.(early := !st.stopped));
  }

  // The whole call, before the io_service has stopped.
  lemma RunStart(st: State, u: Tid, id: RequestId) returns (acts: seq<Action>, st': State)
    requires UserIdle(st, u) && st.threads[u] == IDLE && st.mapLock == None && !st.stopped
    ensures Exec(st, acts) == Some(st')
    ensures var s := |st.sessions|;
      st' == st.(active := st.active[id := s], sessions := st.sessions + [NewSession(id, u).(early := true)],
                 ops := st.ops[s := Connect], outstanding := st.outstanding + 1)
  {
    var s := |st.sessions|;
    var xs, st1 := Then(st, [], st, CallStart(u, id));
    assert st1.threads[u] == IDLE.(at := StartLock, s := s);
    var ys, st2 := RunRegister(st1, u, s, id);
    ExecConcat(st, xs, ys);
    acts, st' := xs + ys, st2;
    assert st'.sessions == st.sessions + [NewSession(id, u).(early := true)];
    assert st'.threads == st.threads;
  }

  // Then it flags the session.
  lemma RunCancelMark(st: State, u: Tid, s: Sid) returns (acts: seq<Action>, st': State)
    requires u < |st.threads| && st.threads[u].at == CancelLockSession && st.threads[u].s == s
    requires s < |st.sessions| && st.sessions[s].lock == None
    ensures Exec(st, acts) == Some(st')
    ensures var x, th := st.sessions[s], st.threads[u];
      st' == Put(st, u, th.(at := CancelUnlockSession), s, x.(lock := Some(u), cancelled := true))
  {
    var x, th := st.sessions[s], st.threads[u];
    var x1 := x.(lock := Some(u));
    var a1, s1 := ThenCancel(st, [], st, u);
    assert s1 == Put(st, u, th.(at := CancelMark), s, x1);
    acts, st' := ThenCancel(st, a1, s1, u);
    PutTwice(st, u, th.(at := CancelMark), th.(at := CancelUnlockSession), s, x1, x1.(cancelled := true));
  }

  // And it gives back both locks.
  lemma RunCancelUnlock(st: State, u: Tid, s: Sid) returns (acts: seq<Action>, st': State)
    requires u < |st.threads| && st.threads[u].at == CancelUnlockSession && st.threads[u].s == s
    requires s < |st.sessions|
    ensures Exec(st, acts) == Some(st')
    ensures st' == Put(st, u, IDLE, s, st.sessions[s].(lock := None)).(mapLock := None)
  {
    var x, th := st.sessions[s].(lock := None), st.threads[u].(at := CancelUnlock);
    var a1, s1 := ThenCancel(st, [], st, u);
    assert s1 == Put(st, u, th, s, x);
    acts, st' := ThenCancel(st, a1, s1, u);
    PutTwice(st, u, th, IDLE, s, x, x);
  }

  // A whole CancelRequest on thread u that finds session s.
  lemma RunCancel(st: State, u: Tid, s: Sid, id: RequestId) returns (acts: seq<Action>, st': State)
    requires UserIdle(st, u) && st.threads[u] == IDLE && st.mapLock == None && s < |st.sessions|
    requires id in st.active && st.active[id] == s && st.sessions[s].lock == None
    ensures Exec(st, acts) == Some(st')
    ensures var x := st.sessions[s];
      st' == st.(sessions := st.sessions[s := x.(finds := x.finds + 1, cancelled := true)])
  {
    var xs, st1 := RunCancelFind(st, u, s, id);
    var ys, st2 := RunCancelMark(st1, u, s);
    var zs, st3 := RunCancelUnlock(st2, u, s);
    ExecConcat(st, xs, ys);
    ExecConcat(st, xs + ys, zs);
    acts, st' := xs + ys + zs, st3;
    var x := st.sessions[s].(finds := st.sessions[s].finds + 1, cancelled := true);
    assert st'.sessions == st.sessions[s := x];
    assert st'.threads == st.threads;
  }

  // Two cancels of one session, with one pool thread and one user thread, are enough for the circular wait.
  lemma SecondCancelCanDeadlock() returns (acts: seq<Action>, st: State)
    ensures Reaches(1, 1, acts, st) && CircularWait(st, 1, 0, 0)
    ensures |st.sessions| == 1 && st.sessions[0].finds == 2
  {
    var s0 := Init(1, 1);
    var a1, s1 := RunStart(s0, 1, 7);
    var a2, s2 := RunCancel(s1, 1, 0, 7);
    ExecConcat(s0, a1, a2);
    var a3, s3 := SecondCancelDeadlocks(s2, 0, 0, 1);
    ExecConcat(s0, a1 + a2, a3);
    acts, st := a1 + a2 + a3, s3;
  }

  // Two sessions with the same id.
  lemma RunTwoStarts() returns (acts: seq<Action>, st: State)
    ensures Reaches(1, 1, acts, st) && st.threads == [IDLE, IDLE] && st.pool == 1 && st.exited == {}
    ensures st.mapLock == None && !st.stopped && st.ops == map[0 := Connect, 1 := Connect]
    ensures var x := NewSession(7, 1).(early := true); st.sessions == [x, x]
  {
    var s0 := Init(1, 1);
    var a1, s1 := RunStart(s0, 1, 7);
    var a2, s2 := RunStart(s1, 1, 7);
    ExecConcat(s0, a1, a2);
    acts, st := a1 + a2, s2;
  }

  // The connect of session 0 fails on thread 0.
  lemma RunFailedConnect(st: State) returns (acts: seq<Action>, st': State)
    requires PoolIdle(st, 0) && !st.stopped && 0 < |st.sessions| && 0 in st.ops && st.ops[0] == Connect
    ensures Exec(st, acts) == Some(st')
    ensures st' == st.(threads := st'.threads, sessions := st'.sessions, ops := st.ops - {0})
    ensures |st'.threads| == |st.threads| && |st'.sessions| == |st.sessions|
    ensures st'.threads[0].at == CompleteLock && st'.threads[0].s == 0 && st'.sessions[0].id == st.sessions[0].id
    ensures forall s | 0 < s < |st.sessions| :: st'.sessions[s] == st.sessions[s]
  {
    var a1, s1 := Then(st, [], st, Dispatch(0, 0, Other(111), ""));
    assert s1.threads[0] == Thread(Handle, 0, 0, Connect, Other(111), "", false);
    acts, st' := ThenHandler(st, a1, s1, 0);
  }

  // Thread t takes the map lock and erases the id of its session.
  lemma RunErase(st: State, t: Tid) returns (acts: seq<Action>, st': State)
    requires t < |st.threads| && st.threads[t].at == CompleteLock && st.mapLock == None
    requires st.threads[t].s < |st.sessions|
    ensures Exec(st, acts) == Some(st')
    ensures st'.active == st.active - {st.sessions[st.threads[t].s].id} && st'.ops == st.ops
    ensures |st'.sessions| == |st.sessions|
    ensures forall s | 0 <= s < |st.sessions| && s != st.threads[t].s :: st'.sessions[s] == st.sessions[s]
  {
    var a1, s1 := ThenComplete(st, [], st, t);
    acts, st' := ThenComplete(st, a1, s1, t);
  }

  // With a reused id the map loses a live session: the first session to complete erases the entry of the
  // second one, and a CancelRequest with that id finds nothing while the second session is still at work.
  lemma ReusedIdLosesSession() returns (acts: seq<Action>, st: State)
    ensures Reaches(1, 1, acts, st)
    ensures |st.sessions| == 2 && st.sessions[1].id == 7 && Live(st.sessions[1]) && 1 in st.ops && 7 !in st.active
  {
    var a1, s1 := RunTwoStarts();
    var a2, s2 := RunFailedConnect(s1);
    ExecConcat(Init(1, 1), a1, a2);
    var a3, s3 := RunErase(s2, 0);
    ExecConcat(Init(1, 1), a1 + a2, a3);
    acts, st := a1 + a2 + a3, s3;
  }

  lemma JoinStep(st: State, c: Tid)
    requires c < |st.threads| && st.threads[c].at == CloseJoin && st.pool == 1 && 0 in st.exited
    ensures Enabled(st, Advance(c)) && Step(st, Advance(c)) == Go(st, c, IDLE).(closed := true)
  {}

  // With no work left the io_service stops, the one pool thread leaves run(), and Close on thread 2 returns.
  lemma RunCloseIdle(st: State) returns (acts: seq<Action>, st': State)
    requires st.pool == 1 && |st.threads| == 3 && st.threads[0] == IDLE && st.threads[2].at == CloseJoin
    requires st.outstanding == 0 && !st.stopped && st.exited == {}
    ensures Exec(st, acts) == Some(st')
    ensures st' == Go(st, 2, IDLE).(stopped := true, exited := {0}, closed := true)
  {
    var a1, s1 := Then(st, [], st, IosStop);
    assert s1 == st.(stopped := true);
    var a2, s2 := Then(st, a1, s1, PoolExit(0));
    assert s2 == st.(stopped := true, exited := {0});
    JoinStep(s2, 2);
    acts, st' := Then(st, a2, s2, Advance(2));
  }

  // EmulateLongComputationOp is called on thread 1, and then Close on thread 2 runs to its end.
  lemma RunStartThenClose() returns (acts: seq<Action>, st: State)
    ensures Reaches(1, 2, acts, st) && st.closed && st.stopped && st.mapLock == None
    ensures st.threads == [IDLE, IDLE.(at := StartLock), IDLE]
    ensures st.sessions == [NewSession(7, 1).(registered := false)]
  {
    var s0 := Init(1, 2);
    var a1, s1 := Then(s0, [], s0, CallStart(1, 7));
    assert s1.threads == [IDLE, IDLE.(at := StartLock), IDLE];
    assert s1.sessions == [NewSession(7, 1).(registered := false)];
    var a2, s2 := Then(s0, a1, s1, CallClose(2));
    assert s2 == s1.(guard := false, outstanding := 0,
                     threads := [IDLE, IDLE.(at := StartLock), IDLE.(at := CloseJoin)]);
    var xs, s3 := RunCloseIdle(s2);
    ExecConcat(s0, a2, xs);
    acts, st := a2 + xs, s3;
    assert st.threads == [IDLE, IDLE.(at := StartLock), IDLE];
  }

  // A session that was started before Close, but is connected after the io_service has stopped: Close has
  // returned, the session stays in the map, and its callback runs in no continuation.
  lemma LateSessionGetsNoCallback(more: seq<Action>) returns (acts: seq<Action>, st: State)
    ensures Reaches(1, 2, acts, st) && st.closed && |st.sessions| == 1 && st.sessions[0].id == 7
    ensures Live(st.sessions[0]) && 0 in st.ops && 7 in st.active && st.active[7] == 0
    ensures Exec(st, more).Some? ==>
              var st' := Exec(st, more).value; |st'.sessions| >= 1 && st'.sessions[0].calls == 0
  {
    var xs, st1 := RunStartThenClose();
    var ys, st2 := RunRegister(st1, 1, 0, 7);
    ExecConcat(Init(1, 2), xs, ys);
    acts, st := xs + ys, st2;
    if Exec(st, more).Some? {
      ReachesInv(1, 2, acts, st);
      LateSessionIsLost(st, more, 0);
    }
  }
}
