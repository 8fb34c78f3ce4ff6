/**
 * The tunnel session: one connection shared by all forwarded streams, in a cell behind a
 * readers-writer lock, and the loop in which a stream retries when the connection fails.
 */
module TunnelSession {
  import opened Wrappers
  import opened Runs

  /** Connections are numbered in the order they are made. */
  type Conn = nat

  datatype Lock = Readers(who: set<nat>) | Writer(c: nat)

  /**
   * A call of `get_connection`, up to `Got`, `Failed` or `Cancelled`, or of
   * `invalidate_connection`, up to `Invalidated`, which is called on behalf of a stream that
   * got the connection `reported` and could not open a stream on it.
   */
  datatype Call =
    | Reading
    | WantsWrite
    | Writing
    | Connecting
    | Got(conn: Conn)
    | Failed
    | Cancelled
    | Invalidating(reported: Conn)
    | Invalidated(reported: Conn, dropped: Option<Conn>)

  /** `emptied` counts the invalidations that found a connection, `invalidated` all of them. */
  datatype State = State(
    cell: Option<Conn>, lock: Lock, calls: map<nat, Call>,
    connects: nat, emptied: nat, invalidated: nat)

  datatype Step =
    | GetRead(c: nat)
    | CheckRead(c: nat)
    | GetWrite(c: nat)
    | CheckWrite(c: nat)
    | ConnectOk(c: nat)
    | ConnectFail(c: nat)
    | Cancel(c: nat)
    | InvalidateWrite(c: nat, user: nat)
    | InvalidateClear(c: nat)

  const FREE := Readers({})
  const INIT := State(None, FREE, map[], 0, 0, 0)

  predicate At(s: State, c: nat, call: Call) {
    c in s.calls && s.calls[c] == call
  }

  predicate Enabled(s: State, step: Step) {
    match step
    case GetRead(c) => c !in s.calls && s.lock.Readers?
    case CheckRead(c) => At(s, c, Reading) && s.lock.Readers?
    case GetWrite(c) => At(s, c, WantsWrite) && s.lock == FREE
    case CheckWrite(c) => At(s, c, Writing)
    case ConnectOk(c) => At(s, c, Connecting)
    case ConnectFail(c) => At(s, c, Connecting)
    case Cancel(c) => At(s, c, WantsWrite) || At(s, c, Connecting)
    case InvalidateWrite(c, user) =>
      c !in s.calls && s.lock == FREE && user in s.calls && s.calls[user].Got?
    case InvalidateClear(c) => c in s.calls && s.calls[c].Invalidating?
  }

  function Apply(s: State, step: Step): (s': State)
    requires Enabled(s, step)
  {
    match step
    case GetRead(c) =>
      s.(lock := Readers(s.lock.who + {c}), calls := s.calls[c := Reading])
    case CheckRead(c) =>
      var next := if s.cell.Some? then Got(s.cell.value) else WantsWrite;
      s.(lock := Readers(s.lock.who - {c}), calls := s.calls[c := next])
    case GetWrite(c) => s.(lock := Writer(c), calls := s.calls[c := Writing])
    case CheckWrite(c) =>
      if s.cell.Some? then s.(lock := FREE, calls := s.calls[c := Got(s.cell.value)])
      else s.(calls := s.calls[c := Connecting])
    case ConnectOk(c) =>
      var conn := s.connects;
      s.(cell := Some(conn), connects := conn + 1, lock := FREE, calls := s.calls[c := Got(conn)])
    case ConnectFail(c) => s.(lock := FREE, calls := s.calls[c := Failed])
    case Cancel(c) =>
      s.(lock := if s.calls[c] == Connecting then FREE else s.lock,
         calls := s.calls[c := Cancelled])
    case InvalidateWrite(c, user) =>
      s.(lock := Writer(c), calls := s.calls[c := Invalidating(s.calls[user].conn)])
    case InvalidateClear(c) =>
      s.(cell := None, lock := FREE,
         calls := s.calls[c := Invalidated(s.calls[c].reported, s.cell)],
         emptied := s.emptied + (if s.cell.Some? then 1 else 0),
         invalidated := s.invalidated + 1)
  }

  function Next(s: State, step: Step): (r: Option<State>) {
    if Enabled(s, step) then Some(Apply(s, step)) else None
  }

  ghost predicate Reaches(steps: seq<Step>, s: State) {
    After(Next, INIT, steps) == Some(s)
  }

  // Invariant -------------------------------------------------------------------------------

  predicate HoldsWrite(call: Call) {
    call.Writing? || call.Connecting? || call.Invalidating?
  }

  /** An invalidation has taken this connection out of the cell. */
  ghost predicate WasDropped(s: State, conn: Conn) {
    exists c | c in s.calls :: s.calls[c].Invalidated? && s.calls[c].dropped == Some(conn)
  }

  ghost predicate HistoryOk(s: State) {
    && (forall conn | 0 <= conn < s.emptied :: WasDropped(s, conn))
    && (forall c | c in s.calls :: s.calls[c].Invalidating? ==> s.calls[c].reported < s.connects)
    && forall c | c in s.calls :: s.calls[c].Invalidated? && s.calls[c].dropped.Some? ==>
         s.calls[c].dropped.value < s.emptied
  }

  ghost predicate Inv(s: State) {
    LockOk(s) && HistoryOk(s)
  }

  ghost predicate LockOk(s: State) {
    && (forall c | c in s.calls :: HoldsWrite(s.calls[c]) <==> s.lock == Writer(c))
    && (s.lock.Writer? ==> s.lock.c in s.calls)
    && (forall c | c in s.calls :: s.calls[c].Reading? <==> s.lock.Readers? && c in s.lock.who)
    && (s.lock.Readers? ==> forall c | c in s.lock.who :: c in s.calls)
    && (forall c | c in s.calls :: s.calls[c].Connecting? ==> s.cell.None?)
    && (forall c | c in s.calls :: s.calls[c].Got? ==> s.calls[c].conn < s.connects)
    && (s.cell.Some? ==> s.cell.value == s.connects - 1)
    && s.connects == s.emptied + (if s.cell.Some? then 1 else 0)
    && s.emptied <= s.invalidated
  }

  ghost predicate Grows(s: State, s': State) {
    s.connects <= s'.connects && s.invalidated <= s'.invalidated
  }

  lemma StepKeepsLock(s: State, step: Step)
    requires LockOk(s) && Enabled(s, step)
    ensures LockOk(Apply(s, step)) && Grows(s, Apply(s, step))
  {}

  lemma StepKeepsDropped(s: State, step: Step, conn: Conn)
    requires Inv(s) && Enabled(s, step) && conn < Apply(s, step).emptied
    ensures WasDropped(Apply(s, step), conn)
  {
    var s' := Apply(s, step);
    if conn < s.emptied {
      assert WasDropped(s, conn);
      var c :| c in s.calls && s.calls[c].Invalidated? && s.calls[c].dropped == Some(conn);
      assert c in s'.calls && s'.calls[c] == s.calls[c];
    } else {
      assert s'.calls[step.c].dropped == Some(conn);
    }
  }

  lemma StepKeepsInv(s: State, step: Step)
    requires Inv(s) && Enabled(s, step)
    ensures Inv(Apply(s, step)) && Grows(s, Apply(s, step))
  {
    StepKeepsLock(s, step);
    forall conn: Conn | conn < Apply(s, step).emptied ensures WasDropped(Apply(s, step), conn) {
      StepKeepsDropped(s, step, conn);
    }
  }

  lemma RunKeepsInv(s: State, steps: seq<Step>, s': State)
    requires Inv(s) && After(Next, s, steps) == Some(s')
    ensures Inv(s') && Grows(s, s')
  {
    forall t, step | Inv(t) && Next(t, step).Some?
      ensures Inv(Next(t, step).value) && Grows(t, Next(t, step).value)
    {
      StepKeepsInv(t, step);
    }
    Holds(Next, Inv, Grows, s, steps);
  }

  // What every run promises -----------------------------------------------------------------

  /**
   * Every connection made is in the cell or was taken out of it by an invalidation, so there
   * is at most one connection more than there were invalidations.
   */
  lemma ConnectionsAreAccountedFor(steps: seq<Step>, s: State)
    requires Reaches(steps, s)
    ensures s.connects == s.emptied + (if s.cell.Some? then 1 else 0)
    ensures s.connects <= s.invalidated + 1
  {
    RunKeepsInv(INIT, steps, s);
  }

  /** Never are two connections being made at a time, nor one while the cell is full. */
  lemma OneConnectAtATime(steps: seq<Step>, s: State, c: nat, d: nat)
    requires Reaches(steps, s) && At(s, c, Connecting) && At(s, d, Connecting)
    ensures c == d && s.cell.None?
  {
    RunKeepsInv(INIT, steps, s);
  }

  /** What a call returns is in the cell, and the call holds the lock, when it takes it. */
  lemma ReturnedUnderTheLock(steps: seq<Step>, s: State, step: Step, c: nat)
    requires Reaches(steps, s) && Enabled(s, step)
    requires c in Apply(s, step).calls && Apply(s, step).calls[c].Got?
    requires c in s.calls ==> !s.calls[c].Got?
    ensures Apply(s, step).cell == Some(Apply(s, step).calls[c].conn)
    ensures s.lock == Writer(c) || (s.lock.Readers? && c in s.lock.who)
  {
    RunKeepsInv(INIT, steps, s);
  }

  /** Without an invalidation in between, all calls return the same connection. */
  lemma SameConnectionUntilInvalidated(
    xs: seq<Step>, s: State, c: nat, ys: seq<Step>, s': State, d: nat)
    requires Reaches(xs, s) && s.cell.Some? && c in s.calls && s.calls[c] == Got(s.cell.value)
    requires Reaches(xs + ys, s') && s'.invalidated == s.invalidated
    requires d in s'.calls && s'.calls[d].Got? && d !in s.calls
    ensures s'.calls[d] == s.calls[c]
  {
    RunKeepsInv(INIT, xs, s);
    Append(Next, INIT, xs, ys);
    StaysTheSame(s, ys, s', d);
  }

  lemma {:induction false} StaysTheSame(s: State, steps: seq<Step>, s': State, d: nat)
    requires Inv(s) && s.cell.Some? && After(Next, s, steps) == Some(s')
    requires s'.invalidated == s.invalidated
    requires d in s.calls && s.calls[d].Got? ==> s.calls[d].conn == s.cell.value
    ensures s'.cell == s.cell
    ensures d in s'.calls && s'.calls[d].Got? ==> s'.calls[d].conn == s.cell.value
    decreases |steps|
  {
    if steps != [] {
      var t := Apply(s, steps[0]);
      StepKeepsInv(s, steps[0]);
      RunKeepsInv(t, steps[1..], s');
      StaysTheSame(t, steps[1..], s', d);
    }
  }

  lemma Take(steps: seq<Step>, s: State, step: Step) returns (steps': seq<Step>, s': State)
    requires Reaches(steps, s) && Enabled(s, step)
    ensures s' == Apply(s, step) && Reaches(steps', s')
  {
    steps', s' := steps + [step], Apply(s, step);
    Extend(Next, INIT, steps, s, step);
  }

  /** A call that finds the cell empty makes a connection. */
  lemma ConnectRun(steps: seq<Step>, s: State, c: nat) returns (steps': seq<Step>, s': State)
    requires Reaches(steps, s) && c !in s.calls && s.lock == FREE && s.cell.None?
    ensures Reaches(steps', s')
    ensures s' == s.(cell := Some(s.connects), connects := s.connects + 1,
                     calls := s.calls[c := Got(s.connects)])
  {
    steps', s' := Take(steps, s, GetRead(c));
    assert s.lock.who + {c} - {c} == {};
    steps', s' := Take(steps', s', CheckRead(c));
    steps', s' := Take(steps', s', GetWrite(c));
    steps', s' := Take(steps', s', CheckWrite(c));
    steps', s' := Take(steps', s', ConnectOk(c));
    assert s'.calls == s.calls[c := Got(s.connects)];
  }

  /** A call that finds a connection returns it. */
  lemma ReuseRun(steps: seq<Step>, s: State, c: nat) returns (steps': seq<Step>, s': State)
    requires Reaches(steps, s) && c !in s.calls && s.lock == FREE && s.cell.Some?
    ensures Reaches(steps', s') && s' == s.(calls := s.calls[c := Got(s.cell.value)])
  {
    steps', s' := Take(steps, s, GetRead(c));
    assert s.lock.who + {c} - {c} == {};
    steps', s' := Take(steps', s', CheckRead(c));
    assert s'.calls == s.calls[c := Got(s.cell.value)];
  }

  /**
   * An invalidation does not ask which connection has failed. It drops a connection other than
   * the reported one exactly when there is one and the reported one was dropped before, which
   * is when more connections have been dropped than were made before the reported one.
   */
  lemma DropsAnotherExactly(steps: seq<Step>, s: State, c: nat)
    requires Reaches(steps, s) && Enabled(s, InvalidateClear(c))
    ensures var reported, dropped := s.calls[c].reported, Apply(s, InvalidateClear(c)).calls[c].dropped;
      && (dropped.Some? && dropped.value != reported <==>
            s.cell.Some? && WasDropped(s, reported))
      && (WasDropped(s, reported) <==> reported < s.emptied)
      && (dropped.Some? ==> dropped.value >= reported)
  {
    RunKeepsInv(INIT, steps, s);
  }

  /**
   * It does happen: two streams hold connection 0; the first reports it and connection 1 is
   * made; when the second one reports connection 0 as well, connection 1 is dropped.
   */
  lemma InvalidationDropsANewerConnection() returns (steps: seq<Step>, before: State, s: State)
    ensures Reaches(steps, s) && Enabled(before, InvalidateClear(4))
    ensures s == Apply(before, InvalidateClear(4))
    ensures At(before, 1, Got(0)) && before.cell == Some(1)
    ensures At(s, 4, Invalidated(0, Some(1))) && s.cell == None
  {
    steps, s := ConnectRun([], INIT, 0);
    steps, s := ReuseRun(steps, s, 1);
    steps, s := Take(steps, s, InvalidateWrite(2, 0));
    steps, s := Take(steps, s, InvalidateClear(2));
    steps, s := ConnectRun(steps, s, 3);
    steps, before := Take(steps, s, InvalidateWrite(4, 1));
    steps, s := Take(steps, before, InvalidateClear(4));
  }

  // Retrying --------------------------------------------------------------------------------

  const MAX_RETRIES: nat := 10

  /** How one attempt to open a stream ends. */
  datatype Attempt = Opened | OpenFailed | ConnectFailed

  datatype Outcome = Streams | ConnectionReset | ConnectionAborted

  function PowerOfTwo(n: nat): (p: nat)
    ensures p >= 1
  {
    if n == 0 then 1 else 2 * PowerOfTwo(n - 1)
  }

  /** Milliseconds to wait after the given number of attempts. */
  function Delay(attempts: nat): (ms: nat)
    requires attempts >= 1
    ensures ms <= 2000
  {
    var ms := 100 * PowerOfTwo(attempts - 1);
    if ms < 2000 then ms else 2000
  }

  function Delays(n: nat): (ds: seq<nat>)
    ensures |ds| == n && forall i | 0 <= i < n :: ds[i] == Delay(i + 1)
  {
    seq(n, i requires 0 <= i < n => Delay(i + 1))
  }

  function CountOpenFailures(attempts: seq<Attempt>): (n: nat)
    ensures n <= |attempts|
    decreases |attempts|
  {
    if attempts == [] then 0
    else
      (if attempts[|attempts| - 1].OpenFailed? then 1 else 0)
      + CountOpenFailures(attempts[..|attempts| - 1])
  }

  /**
   * Succeeds exactly when one of the first ten attempts does, at the first that does. Every
   * failure to open a stream but the tenth invalidates the connection, and every attempt but
   * the last is followed by a wait.
   */
  method OpenStreams(attempts: seq<Attempt>)
    returns (outcome: Outcome, used: nat, delays: seq<nat>, invalidations: nat)
    requires |attempts| >= MAX_RETRIES
    ensures 1 <= used <= MAX_RETRIES && Opened !in attempts[..used - 1]
    ensures outcome.Streams? <==> Opened in attempts[..MAX_RETRIES]
    ensures outcome.Streams? <==> attempts[used - 1].Opened?
    ensures outcome.ConnectionReset? <==> used == MAX_RETRIES && attempts[used - 1].OpenFailed?
    ensures outcome.ConnectionAborted? <==> used == MAX_RETRIES && attempts[used - 1].ConnectFailed?
    ensures delays == Delays(used - 1)
    ensures invalidations == CountOpenFailures(attempts[..used - 1]) <= MAX_RETRIES - 1
  {
    var retries := 0;
    delays, invalidations := [], 0;
    while true
      invariant 0 <= retries < MAX_RETRIES && Opened !in attempts[..retries]
      invariant delays == Delays(retries)
      invariant invalidations == CountOpenFailures(attempts[..retries])
      decreases MAX_RETRIES - retries
    {
      var attempt := attempts[retries];
      retries := retries + 1;
      assert attempts[..retries] == attempts[..retries - 1] + [attempt];
      match attempt {
        case Opened =>
          assert attempts[..MAX_RETRIES][retries - 1] == Opened;
          return Streams, retries, delays, invalidations;
        case OpenFailed =>
          if retries >= MAX_RETRIES {
            return ConnectionReset, retries, delays, invalidations;
          }
          invalidations := invalidations + 1;
        case ConnectFailed =>
          if retries >= MAX_RETRIES {
            return ConnectionAborted, retries, delays, invalidations;
          }
      }
      delays := delays + [Delay(retries)];
    }
  }

  function Sum(ds: seq<nat>): (n: nat) {
    if ds == [] then 0 else Sum(ds[..|ds| - 1]) + ds[|ds| - 1]
  }

  lemma {:induction false} SumOfDelays(n: nat)
    ensures Sum(Delays(n)) == if n == 0 then 0 else Sum(Delays(n - 1)) + Delay(n)
  {
    if n > 0 {
      assert Delays(n)[..n - 1] == Delays(n - 1);
    }
  }

  /**
   * The waits double up to two seconds: after `n` attempts they come to a tenth of a second
   * times `2^n - 1`, and from the fifth attempt on to two seconds more each time.
   */
  lemma {:induction false} TotalDelay(n: nat)
    ensures Sum(Delays(n)) == if n <= 5 then 100 * (PowerOfTwo(n) - 1) else 3100 + 2000 * (n - 5)
    ensures n == MAX_RETRIES - 1 ==> Sum(Delays(n)) == 11_100
    decreases n
  {
    SumOfDelays(n);
    FifthPower();
    if n > 0 {
      TotalDelay(n - 1);
      DelayIs(n);
    }
  }

  lemma FifthPower()
    ensures PowerOfTwo(4) == 16 && PowerOfTwo(5) == 32
  {
    assert PowerOfTwo(2) == 4;
  }

  lemma DelayIs(n: nat)
    requires n >= 1
    ensures Delay(n) == if n <= 5 then 100 * PowerOfTwo(n - 1) else 2000
  {
    FifthPower();
    PowerGrows(n - 1, 4);
    PowerGrows(n - 1, 5);
  }

  lemma {:induction false} PowerGrows(m: nat, n: nat)
    ensures m <= n ==> PowerOfTwo(m) <= PowerOfTwo(n)
    ensures m >= n ==> PowerOfTwo(m) >= PowerOfTwo(n)
    decreases m + n
  {
    if m < n {
      PowerGrows(m, n - 1);
    } else if m > n {
      PowerGrows(m - 1, n);
    }
  }
}
