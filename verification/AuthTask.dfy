/**
 * The outgoing authenticator: requests for a remote that is being authenticated wait for the
 * one task that does it, and requests for a remote that was authenticated are granted at once.
 */
module AuthTask {
  import opened Wrappers
  import opened Runs
  import opened Sequences

  type Remote = nat

  /** The sending half of a one-shot channel, on which a request is answered. */
  type Tx = nat

  datatype AuthResult = Allowed | Denied(reason: string)

  datatype Reply = Reply(tx: Tx, result: AuthResult)

  /** The fields of the authenticator, with the replies it has sent and the tasks it spawned. */
  datatype Auth = Auth(
    allowed: set<Remote>, pending: map<Remote, seq<Tx>>, tasks: multiset<Remote>,
    sent: seq<Reply>, spawned: multiset<Remote>)

  function OnMsg(a: Auth, remote: Remote, tx: Tx): (a': Auth) {
    if remote in a.allowed then a.(sent := a.sent + [Reply(tx, Allowed)])
    else if remote in a.pending then
      a.(pending := a.pending[remote := a.pending[remote] + [tx]])
    else
      a.(tasks := a.tasks + multiset{remote}, spawned := a.spawned + multiset{remote},
         pending := a.pending[remote := [tx]])
  }

  function Replies(txs: seq<Tx>, result: AuthResult): (rs: seq<Reply>)
    ensures |rs| == |txs| && forall i | 0 <= i < |txs| :: rs[i] == Reply(txs[i], result)
  {
    seq(|txs|, i requires 0 <= i < |txs| => Reply(txs[i], result))
  }

  function OnTask(a: Auth, remote: Remote, result: AuthResult): (a': Auth) {
    var txs := if remote in a.pending then a.pending[remote] else [];
    a.(allowed := if result.Allowed? then a.allowed + {remote} else a.allowed,
       pending := a.pending - {remote},
       tasks := a.tasks - multiset{remote},
       sent := a.sent + Replies(txs, result))
  }

  class OutgoingAuthTask {
    var allowed: set<Remote>
    var pending: map<Remote, seq<Tx>>
    var tasks: multiset<Remote>
    var sent: seq<Reply>
    var spawned: multiset<Remote>

    ghost function Contents(): (a: Auth)
      reads this
    {
      Auth(allowed, pending, tasks, sent, spawned)
    }

    constructor ()
      ensures Contents() == Auth({}, map[], multiset{}, [], multiset{})
    {
      allowed, pending, tasks, sent, spawned := {}, map[], multiset{}, [], multiset{};
    }

    method HandleMsg(remote: Remote, tx: Tx)
      modifies this
      ensures Contents() == OnMsg(old(Contents()), remote, tx)
    {
      if remote in allowed {
        sent := sent + [Reply(tx, Allowed)];
      } else {
        if remote in pending {
          pending := pending[remote := pending[remote] + [tx]];
        } else {
          tasks := tasks + multiset{remote};
          spawned := spawned + multiset{remote};
          pending := pending[remote := [tx]];
        }
      }
    }

    /** A task has been joined, which takes it out of the set. */
    method HandleTask(remote: Remote, result: AuthResult)
      modifies this
      ensures Contents() == OnTask(old(Contents()), remote, result)
    {
      tasks := tasks - multiset{remote};
      if result.Allowed? {
        allowed := allowed + {remote};
      }
      var senders := if remote in pending then pending[remote] else [];
      pending := pending - {remote};
      SendAll(senders, result);
    }

    method SendAll(senders: seq<Tx>, result: AuthResult)
      modifies this`sent
      ensures sent == old(sent) + Replies(senders, result)
    {
      for i := 0 to |senders|
        invariant sent == old(sent) + Replies(senders[..i], result)
      {
        assert Replies(senders[..i + 1], result)
            == Replies(senders[..i], result) + [Reply(senders[i], result)];
        sent := sent + [Reply(senders[i], result)];
      }
      assert senders[..|senders|] == senders;
    }

    /** The event loop, until the channel of requests is closed. */
    method Run(events: seq<Event>)
      requires After(Next, Fresh(), events).Some?
      requires Contents() == Fresh().auth
      modifies this
      ensures Contents() == After(Next, Fresh(), events).value.auth
    {
      ghost var s := Fresh();
      for i := 0 to |events|
        invariant After(Next, Fresh(), events[..i]) == Some(s) && Contents() == s.auth
      {
        StepOf(Next, Fresh(), events, i, s);
        match events[i] {
          case Msg(remote, tx) => HandleMsg(remote, tx);
          case TaskDone(remote, result) => HandleTask(remote, result);
        }
        s := Next(s, events[i]).value;
      }
      assert events[..|events|] == events;
    }
  }

  // Runs ------------------------------------------------------------------------------------

  datatype Event = Msg(remote: Remote, tx: Tx) | TaskDone(remote: Remote, result: AuthResult)

  /** `asked` says for which remote a channel was received, `failed` counts the denials. */
  datatype State = State(
    auth: Auth, asked: map<Tx, Remote>, failed: multiset<Remote>, outcomes: set<(Remote, AuthResult)>)

  function Fresh(): (s: State) {
    State(Auth({}, map[], multiset{}, [], multiset{}), map[], multiset{}, {})
  }

  /** A channel is received once, and only tasks that run can complete. */
  predicate Enabled(s: State, e: Event) {
    match e
    case Msg(_, tx) => tx !in s.asked
    case TaskDone(remote, _) => remote in s.auth.tasks
  }

  function Next(s: State, e: Event): (r: Option<State>) {
    if !Enabled(s, e) then None
    else
      match e
      case Msg(remote, tx) =>
        Some(s.(auth := OnMsg(s.auth, remote, tx), asked := s.asked[tx := remote]))
      case TaskDone(remote, result) =>
        Some(State(
          OnTask(s.auth, remote, result), s.asked,
          if result.Denied? then s.failed + multiset{remote} else s.failed,
          s.outcomes + {(remote, result)}))
  }

  ghost predicate Reaches(events: seq<Event>, s: State) {
    After(Next, Fresh(), events) == Some(s)
  }

  // Invariant -------------------------------------------------------------------------------

  /** One task for each pending remote and none for others; every task is accounted for. */
  ghost predicate TasksOk(s: State) {
    var a := s.auth;
    && a.allowed !! a.pending.Keys
    && (forall r: Remote :: a.tasks[r] == if r in a.pending then 1 else 0)
    && (forall r: Remote ::
          a.spawned[r] == s.failed[r] + (if r in a.allowed then 1 else 0) + a.tasks[r])
    && (forall r | r in a.allowed :: (r, Allowed) in s.outcomes)
  }

  ghost predicate IsAnswered(s: State, tx: Tx) {
    exists i | 0 <= i < |s.auth.sent| :: s.auth.sent[i].tx == tx
  }

  ghost predicate IsWaiting(s: State, tx: Tx, r: Remote) {
    r in s.auth.pending && tx in s.auth.pending[r]
  }

  ghost predicate PendingOk(s: State) {
    && (forall r | r in s.auth.pending :: s.auth.pending[r] != [] && NoDuplicates(s.auth.pending[r]))
    && (forall r, tx | IsWaiting(s, tx, r) ::
          tx in s.asked && s.asked[tx] == r && !IsAnswered(s, tx))
  }

  /** Every reply is the first on its channel and states an outcome for the remote asked for. */
  ghost predicate SentOk(s: State) {
    && (forall i, j | 0 <= i < j < |s.auth.sent| :: s.auth.sent[i].tx != s.auth.sent[j].tx)
    && (forall i | 0 <= i < |s.auth.sent| ::
          var reply := s.auth.sent[i];
          && reply.tx in s.asked && (s.asked[reply.tx], reply.result) in s.outcomes)
  }

  ghost predicate NoneForgotten(s: State) {
    forall tx | tx in s.asked :: IsAnswered(s, tx) || IsWaiting(s, tx, s.asked[tx])
  }

  ghost predicate Inv(s: State) {
    TasksOk(s) && PendingOk(s) && SentOk(s) && NoneForgotten(s)
  }

  ghost predicate Grows(s: State, s': State) {
    && s.auth.allowed <= s'.auth.allowed && s.outcomes <= s'.outcomes
    && (forall r | r in s.auth.allowed :: s'.auth.spawned[r] == s.auth.spawned[r])
    && s.auth.sent <= s'.auth.sent
  }

  lemma AnsweredStays(s: State, e: Event, tx: Tx)
    requires Enabled(s, e) && IsAnswered(s, tx)
    ensures IsAnswered(Next(s, e).value, tx)
  {
    var s' := Next(s, e).value;
    var i :| 0 <= i < |s.auth.sent| && s.auth.sent[i].tx == tx;
    assert s'.auth.sent[i] == s.auth.sent[i];
  }

  lemma MsgKeepsTasks(s: State, remote: Remote, tx: Tx)
    requires Inv(s) && Enabled(s, Msg(remote, tx))
    ensures TasksOk(Next(s, Msg(remote, tx)).value)
  {}

  lemma MsgKeepsSent(s: State, remote: Remote, tx: Tx)
    requires Inv(s) && Enabled(s, Msg(remote, tx))
    ensures SentOk(Next(s, Msg(remote, tx)).value)
  {
    var s' := Next(s, Msg(remote, tx)).value;
    assert forall i | 0 <= i < |s.auth.sent| :: s'.auth.sent[i] == s.auth.sent[i];
  }

  lemma MsgKeepsPending(s: State, remote: Remote, tx: Tx)
    requires Inv(s) && Enabled(s, Msg(remote, tx))
    ensures PendingOk(Next(s, Msg(remote, tx)).value)
  {
    var s' := Next(s, Msg(remote, tx)).value;
    assert forall r :: !IsWaiting(s, tx, r);
    forall r, y | IsWaiting(s', y, r)
      ensures y in s'.asked && s'.asked[y] == r && !IsAnswered(s', y)
    {
      NotAnsweredByMsg(s, remote, tx, y, r);
    }
    forall r | r in s'.auth.pending
      ensures s'.auth.pending[r] != [] && NoDuplicates(s'.auth.pending[r])
    {
      assert !IsWaiting(s, tx, r);
    }
  }

  lemma NotAnsweredByMsg(s: State, remote: Remote, tx: Tx, y: Tx, r: Remote)
    requires Inv(s) && Enabled(s, Msg(remote, tx))
    requires IsWaiting(Next(s, Msg(remote, tx)).value, y, r)
    ensures y in Next(s, Msg(remote, tx)).value.asked
    ensures Next(s, Msg(remote, tx)).value.asked[y] == r
    ensures !IsAnswered(Next(s, Msg(remote, tx)).value, y)
  {
    var s' := Next(s, Msg(remote, tx)).value;
    assert IsWaiting(s, y, r) || (y == tx && r == remote);
    assert !IsAnswered(s, tx);
    assert forall i | 0 <= i < |s.auth.sent| :: s'.auth.sent[i] == s.auth.sent[i];
  }

  lemma MsgForgetsNone(s: State, remote: Remote, tx: Tx)
    requires Inv(s) && Enabled(s, Msg(remote, tx))
    ensures NoneForgotten(Next(s, Msg(remote, tx)).value)
  {
    var s' := Next(s, Msg(remote, tx)).value;
    forall y | y in s'.asked ensures IsAnswered(s', y) || IsWaiting(s', y, s'.asked[y]) {
      if y == tx {
        assert remote in s.auth.allowed ==> s'.auth.sent[|s.auth.sent|].tx == tx;
      } else if IsAnswered(s, y) {
        AnsweredStays(s, Msg(remote, tx), y);
      } else {
        assert IsWaiting(s, y, s.asked[y]);
      }
    }
  }

  lemma TaskKeepsTasks(s: State, remote: Remote, result: AuthResult)
    requires Inv(s) && Enabled(s, TaskDone(remote, result))
    ensures TasksOk(Next(s, TaskDone(remote, result)).value)
  {}

  lemma TaskKeepsSent(s: State, remote: Remote, result: AuthResult)
    requires Inv(s) && Enabled(s, TaskDone(remote, result))
    ensures SentOk(Next(s, TaskDone(remote, result)).value)
  {
    var s' := Next(s, TaskDone(remote, result)).value;
    var n, txs := |s.auth.sent|, s.auth.pending[remote];
    assert forall i | 0 <= i < n :: s'.auth.sent[i] == s.auth.sent[i];
    assert forall i | n <= i < |s'.auth.sent| :: s'.auth.sent[i] == Reply(txs[i - n], result);
    forall i | n <= i < |s'.auth.sent|
      ensures s'.auth.sent[i].tx in s.asked && s.asked[s'.auth.sent[i].tx] == remote
      ensures !IsAnswered(s, s'.auth.sent[i].tx)
    {
      assert IsWaiting(s, txs[i - n], remote);
    }
  }

  lemma TaskForgetsNone(s: State, remote: Remote, result: AuthResult)
    requires Inv(s) && Enabled(s, TaskDone(remote, result))
    ensures NoneForgotten(Next(s, TaskDone(remote, result)).value)
  {
    var e := TaskDone(remote, result);
    var s' := Next(s, e).value;
    var n, txs := |s.auth.sent|, s.auth.pending[remote];
    forall y | y in s'.asked ensures IsAnswered(s', y) || IsWaiting(s', y, s'.asked[y]) {
      if IsAnswered(s, y) {
        AnsweredStays(s, e, y);
      } else {
        assert IsWaiting(s, y, s.asked[y]);
        if s.asked[y] == remote {
          var i :| 0 <= i < |txs| && txs[i] == y;
          assert s'.auth.sent[n + i] == Reply(txs[i], result);
        }
      }
    }
  }

  lemma NotAnsweredByTask(s: State, remote: Remote, result: AuthResult, y: Tx, r: Remote)
    requires Inv(s) && Enabled(s, TaskDone(remote, result))
    requires IsWaiting(s, y, r) && r != remote
    ensures !IsAnswered(Next(s, TaskDone(remote, result)).value, y)
  {
    var s' := Next(s, TaskDone(remote, result)).value;
    var n, txs := |s.auth.sent|, s.auth.pending[remote];
    assert !IsWaiting(s, y, remote);
    forall i | 0 <= i < |s'.auth.sent| ensures s'.auth.sent[i].tx != y {
      if i < n {
        assert s'.auth.sent[i] == s.auth.sent[i];
      } else {
        assert s'.auth.sent[i] == Reply(txs[i - n], result) && txs[i - n] in txs;
      }
    }
  }

  lemma TaskKeepsPending(s: State, remote: Remote, result: AuthResult)
    requires Inv(s) && Enabled(s, TaskDone(remote, result))
    ensures PendingOk(Next(s, TaskDone(remote, result)).value)
  {
    var s' := Next(s, TaskDone(remote, result)).value;
    forall r, y | IsWaiting(s', y, r)
      ensures y in s'.asked && s'.asked[y] == r && !IsAnswered(s', y)
    {
      assert IsWaiting(s, y, r) && r != remote;
      NotAnsweredByTask(s, remote, result, y, r);
    }
  }

  lemma StepGrows(s: State, e: Event)
    requires Inv(s) && Enabled(s, e)
    ensures Grows(s, Next(s, e).value)
  {}

  lemma StepKeepsInv(s: State, e: Event)
    requires Inv(s) && Enabled(s, e)
    ensures Inv(Next(s, e).value) && Grows(s, Next(s, e).value)
  {
    StepGrows(s, e);
    match e {
      case Msg(remote, tx) =>
        MsgKeepsTasks(s, remote, tx);
        MsgKeepsSent(s, remote, tx);
        MsgKeepsPending(s, remote, tx);
        MsgForgetsNone(s, remote, tx);
      case TaskDone(remote, result) =>
        TaskKeepsTasks(s, remote, result);
        TaskKeepsSent(s, remote, result);
        TaskKeepsPending(s, remote, result);
        TaskForgetsNone(s, remote, result);
    }
  }

  lemma GrowsIsTransitive(s: State, t: State, u: State)
    requires Grows(s, t) && Grows(t, u)
    ensures Grows(s, u)
  {}

  lemma StepsRespect()
    ensures Respects(Next, Inv, Grows)
  {
    forall t, e | Inv(t) && Next(t, e).Some?
      ensures Inv(Next(t, e).value) && Grows(t, Next(t, e).value)
    {
      StepKeepsInv(t, e);
    }
    forall s, t, u | Grows(s, t) && Grows(t, u) ensures Grows(s, u) {
      GrowsIsTransitive(s, t, u);
    }
  }

  lemma RunKeepsInv(s: State, events: seq<Event>, s': State)
    requires Inv(s) && After(Next, s, events) == Some(s')
    ensures Inv(s') && Grows(s, s')
  {
    StepsRespect();
    Holds(Next, Inv, Grows, s, events);
  }

  // What every run promises -----------------------------------------------------------------

  /**
   * A remote has one task while it is pending and none otherwise, and tasks are spawned once
   * for each denial and once more, for the one that is running or has succeeded.
   */
  lemma SingleFlight(events: seq<Event>, s: State, r: Remote)
    requires Reaches(events, s)
    ensures s.auth.tasks[r] == (if r in s.auth.pending then 1 else 0)
    ensures r in s.auth.pending ==> r !in s.auth.allowed
    ensures s.auth.spawned[r]
            == s.failed[r] + (if r in s.auth.allowed || r in s.auth.pending then 1 else 0)
  {
    RunKeepsInv(Fresh(), events, s);
  }

  /** Every request is answered exactly once, or waits in the list of its remote, once. */
  lemma AnsweredOnceOrWaiting(events: seq<Event>, s: State, tx: Tx)
    requires Reaches(events, s) && tx in s.asked
    ensures IsAnswered(s, tx) <==> !IsWaiting(s, tx, s.asked[tx])
    ensures forall r | IsWaiting(s, tx, r) :: r == s.asked[tx] && NoDuplicates(s.auth.pending[r])
    ensures forall i, j | 0 <= i < j < |s.auth.sent| ::
      !(s.auth.sent[i].tx == tx && s.auth.sent[j].tx == tx)
  {
    RunKeepsInv(Fresh(), events, s);
  }

  /** Once no task runs, every request has been answered. */
  lemma NothingWaitsWhenIdle(events: seq<Event>, s: State, tx: Tx)
    requires Reaches(events, s) && tx in s.asked && |s.auth.tasks| == 0
    ensures IsAnswered(s, tx)
  {
    RunKeepsInv(Fresh(), events, s);
    assert s.auth.tasks[s.asked[tx]] == 0;
  }

  /**
   * A request is granted only after a task for its remote succeeded, and denied only with the
   * reason that a task for its remote failed with.
   */
  lemma AnswersAreEarned(events: seq<Event>, s: State, i: nat)
    requires Reaches(events, s) && i < |s.auth.sent|
    ensures s.auth.sent[i].tx in s.asked
    ensures exists j | 0 <= j < |events| ::
      events[j] == TaskDone(s.asked[s.auth.sent[i].tx], s.auth.sent[i].result)
  {
    RunKeepsInv(Fresh(), events, s);
    OutcomeHappened(Fresh(), events, s, (s.asked[s.auth.sent[i].tx], s.auth.sent[i].result));
  }

  lemma {:induction false} OutcomeHappened(
    s: State, events: seq<Event>, s': State, outcome: (Remote, AuthResult))
    requires After(Next, s, events) == Some(s')
    requires outcome in s'.outcomes && outcome !in s.outcomes
    ensures exists j | 0 <= j < |events| :: events[j] == TaskDone(outcome.0, outcome.1)
    decreases |events|
  {
    var t := Next(s, events[0]).value;
    if outcome in t.outcomes {
      assert events[0] == TaskDone(outcome.0, outcome.1);
    } else {
      OutcomeHappened(t, events[1..], s', outcome);
      var j :| 0 <= j < |events[1..]| && events[1..][j] == TaskDone(outcome.0, outcome.1);
      assert events[j + 1] == TaskDone(outcome.0, outcome.1);
    }
  }

  /** A remote that was authenticated is never authenticated again. */
  lemma AllowedIsFinal(xs: seq<Event>, s: State, ys: seq<Event>, s': State, r: Remote)
    requires Reaches(xs, s) && Reaches(xs + ys, s') && r in s.auth.allowed
    ensures r in s'.auth.allowed && s'.auth.spawned[r] == s.auth.spawned[r]
  {
    RunKeepsInv(Fresh(), xs, s);
    Append(Next, Fresh(), xs, ys);
    RunKeepsInv(s, ys, s');
  }
}
