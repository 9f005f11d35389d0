// What the callback of the asynchronous TCP client delivers.
module AsyncTcpClientAnswers {
  import opened Errors
  import opened Wrappers
  import opened AsyncTcpClient
  import opened AsyncTcpClientInvariant

  // Nothing has been read yet, and no operation has failed.
  predicate Unanswered(x: Session) {
    x.response == "" && x.answer == None && x.failure == None
  }

  // The response is the line with which the read completed, and empty if it did not; the error code is that of
  // the operation that failed.
  predicate Replied(x: Session) {
    && x.response == (match x.answer case None => "" case Some(line) => line)
    && (x.progress == Answered <==> x.answer.Some?)
    && x.ec == (match x.failure case None => Success case Some(ec) => ec)
    && x.failure != Some(Success)
  }

  // What the owner of a session knows of its response.
  predicate OwnerKnows(x: Session, th: Thread) {
    if th.at == Handle then
      && x.response == "" && x.answer == (if th.op == Read && th.ec == Success then Some(th.line) else None)
      && x.failure == (if th.ec == Success then None else Some(th.ec))
    else if InComplete(th.at) then Replied(x)
    else Unanswered(x)
  }

  predicate ThreadAnswers(st: State, t: Tid)
    requires t < |st.threads|
  {
    var th := st.threads[t];
    Owns(th.at) && th.s < |st.sessions| ==> OwnerKnows(st.sessions[th.s], th)
  }

  predicate SessionAnswers(st: State, s: Sid)
    requires s < |st.sessions|
  {
    var x := st.sessions[s];
    && (s in st.ops ==> Unanswered(x))
    && (x.calls > 0 ==> Replied(x) && x.delivered == x.response)
  }

  predicate AnswersOk(st: State) {
    && (forall t | 0 <= t < |st.threads| :: ThreadAnswers(st, t))
    && (forall s | 0 <= s < |st.sessions| :: SessionAnswers(st, s))
  }

  // ---- The step of a thread ----

  // What the owner of session s relies on.
  predicate Knows(st: State, t: Tid, s: Sid) {
    && t < |st.threads| && CanAdvance(st, t) && Owns(st.threads[t].at) && st.threads[t].s == s < |st.sessions|
    && ThreadKnows(st.sessions[s], st.threads[t]) && OwnerKnows(st.sessions[s], st.threads[t])
    && s !in st.ops && st.sessions[s].calls == 0
  }

  predicate Settles(st: State, t: Tid, s: Sid) {
    t < |st.threads| && ThreadAnswers(st, t) && s < |st.sessions| && SessionAnswers(st, s)
  }

  lemma StartAnswers(st: State, t: Tid, s: Sid)
    requires Knows(st, t, s) && InStart(st.threads[t].at)
    ensures Settles(StartStep(st, t), t, s)
  {}

  lemma HandleErrorAnswers(st: State, t: Tid, s: Sid)
    requires Knows(st, t, s) && st.threads[t].at == Handle && st.threads[t].ec != Success
    ensures Settles(HandlerStep(st, t), t, s)
  {}

  lemma HandleLineAnswers(st: State, t: Tid, s: Sid)
    requires Knows(st, t, s) && st.threads[t].at == Handle && st.threads[t].ec == Success && st.threads[t].op == Read
    ensures Settles(HandlerStep(st, t), t, s)
  {}

  lemma HandleNextAnswers(st: State, t: Tid, s: Sid)
    requires Knows(st, t, s) && st.threads[t].at == Handle && st.threads[t].ec == Success && st.threads[t].op != Read
    ensures Settles(HandlerStep(st, t), t, s)
  {}

  lemma HandlerAnswers(st: State, t: Tid, s: Sid)
    requires Knows(st, t, s) && (st.threads[t].at == HandlerLock || st.threads[t].at == HandlerCheck)
    ensures Settles(HandlerStep(st, t), t, s)
  {}

  lemma EraseAnswers(st: State, t: Tid, s: Sid)
    requires Knows(st, t, s) && InComplete(st.threads[t].at) && st.threads[t].at != CompleteCall
    ensures Settles(CompleteStep(st, t), t, s)
  {}

  lemma CallDelivers(st: State, t: Tid, s: Sid)
    requires t < |st.threads| && CanAdvance(st, t) && st.threads[t].at == CompleteCall
    requires st.threads[t].s == s < |st.sessions| && s !in st.ops && Replied(st.sessions[s])
    ensures s < |CompleteStep(st, t).sessions| && SessionAnswers(CompleteStep(st, t), s)
  {}

  lemma CallReleases(st: State, t: Tid)
    requires t < |st.threads| && CanAdvance(st, t) && st.threads[t].at == CompleteCall
    ensures t < |CompleteStep(st, t).threads| && !Owns(CompleteStep(st, t).threads[t].at)
  {}

  lemma OwnerAnswers(st: State, t: Tid, s: Sid)
    requires Knows(st, t, s) && Enabled(st, Advance(t))
    ensures Settles(Step(st, Advance(t)), t, s)
  {
    var th := st.threads[t];
    if InStart(th.at) {
      StartAnswers(st, t, s);
    } else if InComplete(th.at) {
      if th.at == CompleteCall {
        CallDelivers(st, t, s);
        CallReleases(st, t);
      } else {
        EraseAnswers(st, t, s);
      }
    } else if th.at != Handle {
      HandlerAnswers(st, t, s);
    } else if th.ec != Success {
      HandleErrorAnswers(st, t, s);
    } else if th.op == Read {
      HandleLineAnswers(st, t, s);
    } else {
      HandleNextAnswers(st, t, s);
    }
  }

  // No other thread touches the response of an owned session, and none owns it too.
  lemma OtherThreadAnswers(st: State, st': State, t: Tid, u: Tid)
    requires t < |st.threads| && u < |st.threads| && u != t && Framed(st, st', t) && ThreadAnswers(st, u)
    requires var s := Target(st, t); s < |st.sessions| ==> Changed(st.sessions[s], st'.sessions[s], st.threads[t], t)
    requires Owns(st.threads[u].at) && st.threads[u].s == Target(st, t) ==> !Owns(st.threads[t].at)
    ensures ThreadAnswers(st', u)
  {}

  lemma OtherSessionAnswers(st: State, st': State, t: Tid, s: Sid)
    requires t < |st.threads| && s < |st.sessions| && Framed(st, st', t) && SessionAnswers(st, s)
    requires s == Target(st, t) ==> !Owns(st.threads[t].at) && st'.ops == st.ops
    requires s == Target(st, t) ==> Changed(st.sessions[s], st'.sessions[s], st.threads[t], t)
    ensures SessionAnswers(st', s)
  {}

  lemma OwnedByOne(st: State, t: Tid, u: Tid)
    requires Inv(st) && t < |st.threads| && u < |st.threads| && u != t
    requires HasSession(st.threads[t].at) && Owns(st.threads[u].at) && st.threads[u].s == st.threads[t].s
    ensures !Owns(st.threads[t].at)
  {
    assert ThreadOk(st, t) && ThreadOk(st, u);
  }

  lemma OwnerIsReady(st: State, t: Tid)
    requires Inv(st) && AnswersOk(st) && Enabled(st, Advance(t)) && Owns(st.threads[t].at)
    ensures Knows(st, t, st.threads[t].s) && Target(st, t) == st.threads[t].s
  {
    assert ThreadOk(st, t) && ThreadAnswers(st, t);
  }

  lemma AdvanceThreadAnswers(st: State, t: Tid)
    requires Inv(st) && AnswersOk(st) && Enabled(st, Advance(t)) && st.threads[t].at != CloseJoin
    ensures t < |Step(st, Advance(t)).threads| && ThreadAnswers(Step(st, Advance(t)), t)
  {
    if Owns(st.threads[t].at) {
      OwnerIsReady(st, t);
      OwnerAnswers(st, t, st.threads[t].s);
    } else {
      AdvanceDone(st, t);
    }
  }

  lemma AdvanceOtherAnswers(st: State, st': State, t: Tid, u: Tid)
    requires Inv(st) && AnswersOk(st) && t < |st.threads| && u < |st.threads| && u != t
    requires Framed(st, st', t) && Guarantee(st, st', t)
    ensures ThreadAnswers(st', u)
  {
    assert ThreadAnswers(st, u);
    if Owns(st.threads[u].at) && st.threads[u].s == Target(st, t) && Owns(st.threads[t].at) {
      OwnedByOne(st, t, u);
    }
    OtherThreadAnswers(st, st', t, u);
  }

  lemma AdvanceSessionAnswers(st: State, t: Tid, s: Sid)
    requires Inv(st) && AnswersOk(st) && Enabled(st, Advance(t)) && st.threads[t].at != CloseJoin
    requires s < |Step(st, Advance(t)).sessions|
    ensures SessionAnswers(Step(st, Advance(t)), s)
  {
    var st' := Step(st, Advance(t));
    AdvanceDone(st, t);
    assert SessionAnswers(st, s);
    if s == Target(st, t) && Owns(st.threads[t].at) {
      OwnerIsReady(st, t);
      OwnerAnswers(st, t, s);
    } else {
      OtherSessionAnswers(st, st', t, s);
    }
  }

  // ---- The other steps ----

  lemma CallThreadAnswers(st: State, a: Action, u: Tid)
    requires Enabled(st, a) && (a.CallStart? || a.CallCancel? || a.CallClose?)
    requires u < |st.threads| && ThreadAnswers(st, u)
    requires Owns(st.threads[u].at) ==> st.threads[u].s < |st.sessions|
    ensures ThreadAnswers(Step(st, a), u)
  {}

  lemma DispatchThreadAnswers(st: State, a: Action, u: Tid)
    requires Enabled(st, a) && a.Dispatch? && SessionAnswers(st, a.s) && u < |st.threads| && ThreadAnswers(st, u)
    requires Owns(st.threads[u].at) ==> st.threads[u].s !in st.ops
    ensures ThreadAnswers(Step(st, a), u)
  {}

  lemma OtherStepThread(st: State, a: Action, u: Tid)
    requires Inv(st) && AnswersOk(st) && Enabled(st, a) && (a.Advance? ==> st.threads[a.t].at == CloseJoin)
    requires u < |st.threads|
    ensures ThreadAnswers(Step(st, a), u)
  {
    assert ThreadOk(st, u) && ThreadAnswers(st, u);
    if a.Dispatch? {
      assert SessionAnswers(st, a.s);
      DispatchThreadAnswers(st, a, u);
    } else if a.CallStart? || a.CallCancel? || a.CallClose? {
      CallThreadAnswers(st, a, u);
    }
  }

  lemma OtherStepSession(st: State, a: Action, s: Sid)
    requires Enabled(st, a) && (a.Advance? ==> st.threads[a.t].at == CloseJoin)
    requires s < |Step(st, a).sessions| && (|st.sessions| !in st.ops)
    requires s < |st.sessions| ==> SessionAnswers(st, s) && (s in st.ops ==> st.sessions[s].calls == 0)
    ensures SessionAnswers(Step(st, a), s)
  {}

  lemma AnswersKept(st: State, a: Action)
    requires Inv(st) && AnswersOk(st) && Enabled(st, a)
    ensures AnswersOk(Step(st, a))
  {
    var st' := Step(st, a);
    InvKept(st, a);
    if a.Advance? && st.threads[a.t].at != CloseJoin {
      AdvanceDone(st, a.t);
      forall u | 0 <= u < |st'.threads| ensures ThreadAnswers(st', u) {
        if u == a.t {
          AdvanceThreadAnswers(st, a.t);
        } else {
          AdvanceOtherAnswers(st, st', a.t, u);
        }
      }
      forall s | 0 <= s < |st'.sessions| ensures SessionAnswers(st', s) {
        AdvanceSessionAnswers(st, a.t, s);
      }
    } else {
      OtherStepAnswers(st, a);
    }
  }

  lemma OtherStepAnswers(st: State, a: Action)
    requires Inv(st) && AnswersOk(st) && Enabled(st, a) && (a.Advance? ==> st.threads[a.t].at == CloseJoin)
    ensures AnswersOk(Step(st, a))
  {
    var st' := Step(st, a);
    forall u | 0 <= u < |st'.threads| ensures ThreadAnswers(st', u) {
      OtherStepThread(st, a, u);
    }
    forall s | 0 <= s < |st'.sessions| ensures SessionAnswers(st', s) {
      assert s < |st.sessions| ==> SessionOk(st, s) && SessionAnswers(st, s);
      OtherStepSession(st, a, s);
    }
  }

  lemma {:induction false} AnswersAlong(st: State, acts: seq<Action>)
    requires Inv(st) && AnswersOk(st) && Exec(st, acts).Some?
    ensures AnswersOk(Exec(st, acts).value)
    decreases |acts|
  {
    if acts != [] {
      AnswersKept(st, acts[0]);
      InvKept(st, acts[0]);
      AnswersAlong(Step(st, acts[0]), acts[1..]);
    }
  }

  // The one callback of a session reports the error of its operation that failed; if none failed it reports
  // Aborted or success, and Aborted exactly when a cancel found the session.
  lemma CallbackReportsTheFailure(pool: nat, users: nat, acts: seq<Action>, st: State, s: Sid)
    requires Reaches(pool, users, acts, st) && s < |st.sessions| && st.sessions[s].calls > 0
    ensures var x := st.sessions[s];
      && x.failure != Some(Success)
      && x.reported == match x.failure
                       case Some(ec) => ec
                       case None => if x.finds > 0 then Aborted else Success
  {
    ReachesInv(pool, users, acts, st);
    InitInv(pool, users);
    AnswersAlong(Init(pool, users), acts);
    assert SessionOk(st, s) && SessionAnswers(st, s);
  }

  // The one callback of a session delivers the line with which its own read completed, or the empty string if
  // no read completed; with success there always is such a line.
  lemma CallbackDeliversTheLine(pool: nat, users: nat, acts: seq<Action>, st: State, s: Sid)
    requires Reaches(pool, users, acts, st) && s < |st.sessions| && st.sessions[s].calls > 0
    ensures var x := st.sessions[s];
      && x.delivered == (match x.answer case None => "" case Some(line) => line)
      && (x.reported == Success ==> x.answer.Some?)
  {
    ReachesInv(pool, users, acts, st);
    InitInv(pool, users);
    AnswersAlong(Init(pool, users), acts);
    assert SessionOk(st, s) && SessionAnswers(st, s);
  }
}
