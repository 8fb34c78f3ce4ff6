/**
 * The swappable DNS resolver: `reset` replaces the resolver and wakes the lookups in flight,
 * `op` runs a lookup and starts over when it is woken. Any number of both interleave, one
 * atomic access at a time. Resolvers are numbered in the order they are built.
 */
module ResolverReset {
  import opened Wrappers
  import opened Runs

  type Id = nat

  /**
   * A call of `reset`: the resolver it loaded, the number of resolvers built before it began,
   * the one it built, whether its exchange went through. Between `Swapped` and `Finished` it
   * still has to wake the waiting lookups.
   */
  datatype Reset =
    | Loaded(guard: Id, since: nat)
    | Built(guard: Id, since: nat, made: Id)
    | Swapped(guard: Id, since: nat, made: Id)
    | Finished(guard: Id, since: nat, made: Id, won: bool)

  /** What a lookup could have observed at the moment it found no wake. */
  datatype Moment = Moment(current: Id, swapping: bool)

  /**
   * A call of `op`. `ticket` is the number of wakes issued when its notification was enabled;
   * every later wake is kept for it. `Checked` is inside one poll, after the notification was
   * found not ready and before the timer is looked at. `start` counts the wakes before the
   * call and `retries` the times it started over.
   */
  datatype Op =
    | Idle(start: nat, retries: nat)
    | Armed(start: nat, retries: nat, ticket: nat)
    | Running(start: nat, retries: nat, ticket: nat, resolver: Id)
    | Checked(start: nat, retries: nat, ticket: nat, resolver: Id, moment: Moment)
    | Answered(start: nat, retries: nat, resolver: Id)
    | TimedOut(start: nat, retries: nat, resolver: Id, moment: Moment)

  datatype State = State(
    current: Id, built: nat, wakes: nat, resets: map<nat, Reset>, ops: map<nat, Op>)

  datatype Step =
    | ResetLoad(r: nat)
    | ResetBuild(r: nat)
    | ResetSwap(r: nat)
    | ResetNotify(r: nat)
    | OpStart(o: nat)
    | OpEnable(o: nat)
    | OpLoad(o: nat)
    | OpComplete(o: nat)
    | OpWoken(o: nat)
    | OpNotWoken(o: nat)
    | OpPark(o: nat)
    | OpTimeout(o: nat)

  const INIT := State(0, 1, 0, map[], map[])

  predicate Swapping(s: State) {
    exists r | r in s.resets :: s.resets[r].Swapped?
  }

  predicate Enabled(s: State, step: Step) {
    match step
    case ResetLoad(r) => r !in s.resets
    case ResetBuild(r) => r in s.resets && s.resets[r].Loaded?
    case ResetSwap(r) => r in s.resets && s.resets[r].Built?
    case ResetNotify(r) => r in s.resets && s.resets[r].Swapped?
    case OpStart(o) => o !in s.ops
    case OpEnable(o) => o in s.ops && s.ops[o].Idle?
    case OpLoad(o) => o in s.ops && s.ops[o].Armed?
    case OpComplete(o) => o in s.ops && s.ops[o].Running?
    case OpWoken(o) => o in s.ops && s.ops[o].Running? && s.wakes > s.ops[o].ticket
    case OpNotWoken(o) => o in s.ops && s.ops[o].Running? && s.wakes <= s.ops[o].ticket
    case OpPark(o) => o in s.ops && s.ops[o].Checked?
    case OpTimeout(o) => o in s.ops && s.ops[o].Checked?
  }

  function Apply(s: State, step: Step): (s': State)
    requires Enabled(s, step)
  {
    match step
    case ResetLoad(r) => s.(resets := s.resets[r := Loaded(s.current, s.built)])
    case ResetBuild(r) =>
      var reset := s.resets[r];
      s.(built := s.built + 1, resets := s.resets[r := Built(reset.guard, reset.since, s.built)])
    case ResetSwap(r) =>
      var reset := s.resets[r];
      if s.current == reset.guard
      then s.(current := reset.made,
              resets := s.resets[r := Swapped(reset.guard, reset.since, reset.made)])
      else s.(resets := s.resets[r := Finished(reset.guard, reset.since, reset.made, false)])
    case ResetNotify(r) =>
      var reset := s.resets[r];
      s.(wakes := s.wakes + 1,
         resets := s.resets[r := Finished(reset.guard, reset.since, reset.made, true)])
    case OpStart(o) => s.(ops := s.ops[o := Idle(s.wakes, 0)])
    case OpEnable(o) =>
      var op := s.ops[o];
      s.(ops := s.ops[o := Armed(op.start, op.retries, s.wakes)])
    case OpLoad(o) =>
      var op := s.ops[o];
      s.(ops := s.ops[o := Running(op.start, op.retries, op.ticket, s.current)])
    case OpComplete(o) =>
      var op := s.ops[o];
      s.(ops := s.ops[o := Answered(op.start, op.retries, op.resolver)])
    case OpWoken(o) =>
      var op := s.ops[o];
      s.(ops := s.ops[o := Idle(op.start, op.retries + 1)])
    case OpNotWoken(o) =>
      var op := s.ops[o];
      var moment := Moment(s.current, Swapping(s));
      s.(ops := s.ops[o := Checked(op.start, op.retries, op.ticket, op.resolver, moment)])
    case OpPark(o) =>
      var op := s.ops[o];
      s.(ops := s.ops[o := Running(op.start, op.retries, op.ticket, op.resolver)])
    case OpTimeout(o) =>
      var op := s.ops[o];
      s.(ops := s.ops[o := TimedOut(op.start, op.retries, op.resolver, op.moment)])
  }

  function Next(s: State, step: Step): (r: Option<State>) {
    if Enabled(s, step) then Some(Apply(s, step)) else None
  }

  ghost predicate Reaches(steps: seq<Step>, s: State) {
    After(Next, INIT, steps) == Some(s)
  }

  // Invariant -------------------------------------------------------------------------------

  /** Some reset has replaced a resolver no older than `id` and has not yet woken anybody. */
  ghost predicate WakeToCome(s: State, id: Id) {
    exists r | r in s.resets :: s.resets[r].Swapped? && s.resets[r].guard >= id
  }

  /** Some reset has installed a resolver in place of `id`. */
  ghost predicate Replaced(s: State, id: Id) {
    exists r | r in s.resets :: Won(s.resets[r]) && s.resets[r].guard == id
  }

  /** Some reset has replaced `id` by the current resolver. */
  ghost predicate ReplacedByCurrent(s: State, id: Id) {
    exists r | r in s.resets ::
      Won(s.resets[r]) && s.resets[r].guard == id && s.resets[r].made == s.current
  }

  ghost predicate ResetOk(s: State, reset: Reset) {
    && reset.guard <= s.current && reset.guard < reset.since <= s.built
    && (!reset.Loaded? ==> reset.since <= reset.made < s.built)
    && (Won(reset) ==> reset.made <= s.current)
    && (reset.Swapped? || reset.Finished? ==> reset.guard < s.current)
  }

  /** A resolver is current from its installation until a reset that loaded it replaces it. */
  ghost predicate AgeOk(s: State, reset: Reset) {
    && (s.current == reset.guard || Replaced(s, reset.guard))
    && (s.current == reset.guard || s.current >= reset.since || ReplacedByCurrent(s, reset.guard))
  }

  /** Who loaded a later resolver began later, and no resolver is replaced twice. */
  ghost predicate PairOk(q: Reset, r: Reset) {
    && (q.guard > r.guard ==> q.since >= r.since)
    && (Won(q) && Won(r) ==> q.guard != r.guard)
  }

  ghost predicate OpOk(s: State, op: Op) {
    match op
    case Idle(start, retries) => start + retries <= s.wakes
    case Armed(start, retries, ticket) => start + retries <= ticket <= s.wakes
    case Running(start, retries, ticket, resolver) =>
      && start + retries <= ticket <= s.wakes
      && (resolver == s.current || s.wakes > ticket || WakeToCome(s, resolver))
      && (resolver == s.current || Replaced(s, resolver))
    case Checked(start, retries, ticket, resolver, moment) =>
      && start + retries <= ticket <= s.wakes
      && (resolver == s.current || s.wakes > ticket || WakeToCome(s, resolver))
      && (resolver == s.current || Replaced(s, resolver))
      && (moment.current == resolver || moment.swapping)
    case Answered(start, retries, _) => start + retries <= s.wakes
    case TimedOut(start, retries, resolver, moment) =>
      && start + retries <= s.wakes
      && (moment.current == resolver || moment.swapping)
  }

  predicate Won(reset: Reset) {
    reset.Swapped? || (reset.Finished? && reset.won)
  }

  ghost predicate Inv(s: State) {
    && s.current < s.built
    && (forall r | r in s.resets :: ResetOk(s, s.resets[r]))
    && (forall q, r | q in s.resets && r in s.resets && q != r ::
          PairOk(s.resets[q], s.resets[r]))
    && (forall r | r in s.resets :: AgeOk(s, s.resets[r]))
    && (forall o | o in s.ops :: OpOk(s, s.ops[o]))
  }

  /** Where a reset may get to. */
  ghost predicate Continues(reset: Reset, reset': Reset) {
    && reset'.guard == reset.guard && reset'.since == reset.since
    && (reset.Finished? ==> reset' == reset)
    && (Won(reset) ==> Won(reset') && reset'.made == reset.made)
  }

  /** The resolver only moves forward, and resets that begin later load a later one. */
  ghost predicate Forward(s: State, s': State) {
    && s.current <= s'.current && s.wakes <= s'.wakes
    && (forall r | r in s.resets :: r in s'.resets && Continues(s.resets[r], s'.resets[r]))
    && forall r | r in s'.resets && r !in s.resets :: s'.resets[r].guard >= s.current
  }

  lemma WakeIsKept(s: State, step: Step, id: Id)
    requires Enabled(s, step) && WakeToCome(s, id)
    ensures WakeToCome(Apply(s, step), id) || Apply(s, step).wakes > s.wakes
  {
    var s' := Apply(s, step);
    var r :| r in s.resets && s.resets[r].Swapped? && s.resets[r].guard >= id;
    assert !step.ResetNotify? ==> r in s'.resets && s'.resets[r] == s.resets[r];
  }

  lemma StepContinues(s: State, step: Step, r: nat)
    requires Enabled(s, step) && r in s.resets
    ensures r in Apply(s, step).resets && Continues(s.resets[r], Apply(s, step).resets[r])
  {}

  lemma ReplacedIsKept(s: State, step: Step, id: Id)
    requires Enabled(s, step)
    ensures Replaced(s, id) ==> Replaced(Apply(s, step), id)
    ensures ReplacedByCurrent(s, id) && Apply(s, step).current == s.current ==>
      ReplacedByCurrent(Apply(s, step), id)
  {
    if Replaced(s, id) {
      var r :| r in s.resets && Won(s.resets[r]) && s.resets[r].guard == id;
      StepContinues(s, step, r);
    }
    if ReplacedByCurrent(s, id) {
      var r :| r in s.resets && Won(s.resets[r]) && s.resets[r].guard == id
               && s.resets[r].made == s.current;
      StepContinues(s, step, r);
    }
  }

  /** The only step that changes the resolver. */
  lemma SwapReplaces(s: State, step: Step)
    requires Inv(s) && Enabled(s, step) && Apply(s, step).current != s.current
    ensures step.ResetSwap? && s.resets[step.r].guard == s.current < Apply(s, step).current
    ensures Apply(s, step).current == s.resets[step.r].made
    ensures WakeToCome(Apply(s, step), s.current) && Replaced(Apply(s, step), s.current)
    ensures ReplacedByCurrent(Apply(s, step), s.current)
  {
    var s' := Apply(s, step);
    assert ResetOk(s, s.resets[step.r]);
    assert s'.resets[step.r].Swapped? && s'.resets[step.r].guard == s.current;
  }

  lemma StepKeepsReset(s: State, step: Step, r: nat)
    requires Inv(s) && Enabled(s, step) && r in Apply(s, step).resets
    ensures ResetOk(Apply(s, step), Apply(s, step).resets[r])
  {
    if r in s.resets { assert ResetOk(s, s.resets[r]); }
    if Apply(s, step).current != s.current { SwapReplaces(s, step); }
  }

  lemma StepKeepsPair(s: State, step: Step, q: nat, r: nat)
    requires Inv(s) && Enabled(s, step) && q != r
    requires q in Apply(s, step).resets && r in Apply(s, step).resets
    ensures PairOk(Apply(s, step).resets[q], Apply(s, step).resets[r])
  {
    if q in s.resets { assert ResetOk(s, s.resets[q]); }
    if r in s.resets { assert ResetOk(s, s.resets[r]); }
    if q in s.resets && r in s.resets {
      assert PairOk(s.resets[q], s.resets[r]);
      StepContinues(s, step, q);
      StepContinues(s, step, r);
      NewWinner(s, step, q);
      NewWinner(s, step, r);
    }
  }

  lemma NewWinner(s: State, step: Step, r: nat)
    requires Enabled(s, step) && r in s.resets && r in Apply(s, step).resets
    ensures Won(Apply(s, step).resets[r]) && !Won(s.resets[r]) ==>
      step == ResetSwap(r) && s.resets[r].guard == s.current
  {}

  /** A swap makes the resolver new enough for every reset but those it was swapped under. */
  lemma SwapKeepsAge(s: State, step: Step, r: nat)
    requires Inv(s) && Enabled(s, step) && r in s.resets
    requires Apply(s, step).current != s.current && s.current != s.resets[r].guard
    ensures Apply(s, step).current >= s.resets[r].since
  {
    SwapReplaces(s, step);
    var reset := s.resets[r];
    assert AgeOk(s, reset) && ResetOk(s, reset) && ResetOk(s, s.resets[step.r]);
    assert s.current > reset.guard;
    assert PairOk(s.resets[step.r], reset);
  }

  lemma StepKeepsAge(s: State, step: Step, r: nat)
    requires Inv(s) && Enabled(s, step) && r in Apply(s, step).resets
    ensures AgeOk(Apply(s, step), Apply(s, step).resets[r])
  {
    if r in s.resets {
      assert AgeOk(s, s.resets[r]);
      StepContinues(s, step, r);
      ReplacedIsKept(s, step, s.resets[r].guard);
      if Apply(s, step).current != s.current {
        SwapReplaces(s, step);
        if s.current != s.resets[r].guard { SwapKeepsAge(s, step, r); }
      }
    }
  }

  lemma StepKeepsOp(s: State, step: Step, o: nat)
    requires Inv(s) && Enabled(s, step) && o in Apply(s, step).ops
    ensures OpOk(Apply(s, step), Apply(s, step).ops[o])
  {
    if o in s.ops {
      var op := s.ops[o];
      assert OpOk(s, op);
      if op.Running? || op.Checked? {
        ReplacedIsKept(s, step, op.resolver);
        if WakeToCome(s, op.resolver) { WakeIsKept(s, step, op.resolver); }
      }
      if Apply(s, step).current != s.current { SwapReplaces(s, step); }
    }
  }

  lemma StepKeepsInv(s: State, step: Step)
    requires Inv(s) && Enabled(s, step)
    ensures Inv(Apply(s, step))
  {
    var s' := Apply(s, step);
    if s'.current != s.current { SwapReplaces(s, step); assert ResetOk(s, s.resets[step.r]); }
    forall r | r in s'.resets ensures ResetOk(s', s'.resets[r]) && AgeOk(s', s'.resets[r]) {
      StepKeepsReset(s, step, r);
      StepKeepsAge(s, step, r);
    }
    forall q, r | q in s'.resets && r in s'.resets && q != r
      ensures PairOk(s'.resets[q], s'.resets[r])
    {
      StepKeepsPair(s, step, q, r);
    }
    forall o | o in s'.ops ensures OpOk(s', s'.ops[o]) {
      StepKeepsOp(s, step, o);
    }
  }

  lemma StepGoesForward(s: State, step: Step)
    requires Inv(s) && Enabled(s, step)
    ensures Forward(s, Apply(s, step))
  {
    if Apply(s, step).current != s.current { SwapReplaces(s, step); }
    forall r | r in s.resets
      ensures r in Apply(s, step).resets && Continues(s.resets[r], Apply(s, step).resets[r])
    {
      StepContinues(s, step, r);
    }
  }

  lemma ForwardIsTransitive(s: State, t: State, u: State)
    requires Forward(s, t) && Forward(t, u)
    ensures Forward(s, u)
  {
    forall r | r in s.resets ensures r in u.resets && Continues(s.resets[r], u.resets[r]) {
      assert Continues(s.resets[r], t.resets[r]) && Continues(t.resets[r], u.resets[r]);
    }
    forall r | r in u.resets && r !in s.resets ensures u.resets[r].guard >= s.current {
      if r in t.resets { assert Continues(t.resets[r], u.resets[r]); }
    }
  }

  lemma RunKeepsInv(s: State, steps: seq<Step>, s': State)
    requires Inv(s) && After(Next, s, steps) == Some(s')
    ensures Inv(s') && Forward(s, s')
  {
    forall t, step | Inv(t) && Next(t, step).Some?
      ensures Inv(Next(t, step).value) && Forward(t, Next(t, step).value)
    {
      StepKeepsInv(t, step);
      StepGoesForward(t, step);
    }
    forall t, u, v | Forward(t, u) && Forward(u, v) ensures Forward(t, v) {
      ForwardIsTransitive(t, u, v);
    }
    Holds(Next, Inv, Forward, s, steps);
  }

  // What every run promises -----------------------------------------------------------------

  /**
   * No wake is lost: a lookup that runs on a replaced resolver has a wake waiting for it, or
   * the reset that replaced it, or a later one, is about to issue one.
   */
  lemma NoLostWake(steps: seq<Step>, s: State, o: nat)
    requires Reaches(steps, s) && o in s.ops && s.ops[o].Running?
    ensures s.ops[o].resolver == s.current || Enabled(s, OpWoken(o))
            || WakeToCome(s, s.ops[o].resolver)
  {
    RunKeepsInv(INIT, steps, s);
    assert OpOk(s, s.ops[o]);
  }

  /**
   * Once no reset is under way, a lookup on a replaced resolver that is between polls can only
   * answer or restart. One that is inside a poll is the subject of `TimeoutExactly`.
   */
  lemma QuietStateRestartsStaleLookups(steps: seq<Step>, s: State, o: nat)
    requires Reaches(steps, s) && !Swapping(s)
    requires o in s.ops && s.ops[o].Running? && s.ops[o].resolver != s.current
    ensures Enabled(s, OpWoken(o)) && !Enabled(s, OpNotWoken(o)) && !Enabled(s, OpTimeout(o))
  {
    NoLostWake(steps, s, o);
  }

  /** Of the resets that loaded one resolver, at most one installs its replacement. */
  lemma OneWinner(steps: seq<Step>, s: State, q: nat, r: nat)
    requires Reaches(steps, s) && q in s.resets && r in s.resets && q != r
    requires Won(s.resets[q]) && Won(s.resets[r])
    ensures s.resets[q].guard != s.resets[r].guard
  {
    RunKeepsInv(INIT, steps, s);
    assert PairOk(s.resets[q], s.resets[r]);
  }

  /** A resolver that has been replaced never comes back. */
  lemma ResolversMoveForward(xs: seq<Step>, s: State, ys: seq<Step>, s': State)
    requires Reaches(xs, s) && Reaches(xs + ys, s')
    ensures s.current <= s'.current && s.wakes <= s'.wakes
  {
    RunKeepsInv(INIT, xs, s);
    Append(Next, INIT, xs, ys);
    RunKeepsInv(s, ys, s');
  }

  /**
   * Once a reset has returned, whether its own exchange went through or not, no attempt
   * starts on the resolver that it was called to replace.
   */
  lemma LaterAttemptsUseALaterResolver(
    xs: seq<Step>, s: State, r: nat, ys: seq<Step>, s': State, o: nat)
    requires Reaches(xs, s) && r in s.resets && s.resets[r].Finished?
    requires Reaches(xs + ys, s') && Enabled(s', OpLoad(o))
    ensures Apply(s', OpLoad(o)).ops[o].resolver > s.resets[r].guard
  {
    RunKeepsInv(INIT, xs, s);
    assert ResetOk(s, s.resets[r]);
    ResolversMoveForward(xs, s, ys, s');
  }

  /** `q` won the exchange both were after, with a resolver built before `r` began. */
  ghost predicate BeatsWithOlder(s: State, q: Reset, r: Reset) {
    Won(q) && q.guard == r.guard && q.made == s.current && q.made < r.since
  }

  /**
   * A reset is called because something changed. Whether the resolver that is then current was
   * built after the call began is another matter. For a reset that has returned it was not,
   * exactly when the one reset that beat it to the exchange had built its resolver before, and
   * that resolver is still current. A reset whose own exchange went through is never late.
   */
  lemma OutdatedExactly(steps: seq<Step>, s: State, r: nat)
    requires Reaches(steps, s) && r in s.resets && s.resets[r].Finished?
    ensures s.current < s.resets[r].since <==>
      exists q | q in s.resets && q != r :: BeatsWithOlder(s, s.resets[q], s.resets[r])
    ensures s.current < s.resets[r].since ==> !s.resets[r].won
  {
    RunKeepsInv(INIT, steps, s);
    var reset := s.resets[r];
    assert AgeOk(s, reset) && ResetOk(s, reset);
    if s.current < reset.since {
      var q :| q in s.resets && Won(s.resets[q]) && s.resets[q].guard == reset.guard
               && s.resets[q].made == s.current;
      assert q != r ==> PairOk(s.resets[q], reset);
      assert BeatsWithOlder(s, s.resets[q], reset);
    }
  }

  /**
   * Two resets one after the other are enough: when the second one has returned, the current
   * resolver was built after the first one began.
   */
  lemma TwoResetsSuffice(xs: seq<Step>, s: State, q: nat, ys: seq<Step>, s': State, r: nat)
    requires Reaches(xs, s) && q in s.resets && s.resets[q].Finished?
    requires Reaches(xs + ys, s') && r !in s.resets && r in s'.resets && s'.resets[r].Finished?
    ensures s'.current >= s.resets[q].since
  {
    RunKeepsInv(INIT, xs, s);
    Append(Next, INIT, xs, ys);
    RunKeepsInv(s, ys, s');
    var first := s.resets[q];
    assert AgeOk(s, first) && ResetOk(s, first) && ResetOk(s', s'.resets[r]);
    var w :| w in s.resets && Won(s.resets[w]) && s.resets[w].guard == first.guard;
    assert ResetOk(s, s.resets[w]) && Continues(s.resets[w], s'.resets[w]);
    assert Continues(first, s'.resets[q]) && AgeOk(s', first);
    forall v | v in s'.resets && Won(s'.resets[v]) && s'.resets[v].guard == first.guard
      ensures s'.resets[v].made < s'.current
    {
      assert v == w || PairOk(s'.resets[v], s'.resets[w]);
    }
  }

  /** One is not: here the reset that wins has built its resolver before the other one begins. */
  lemma OutdatedRun() returns (steps: seq<Step>, s: State)
    ensures Reaches(steps, s) && 1 in s.resets && s.resets[1].Finished?
    ensures s.current < s.resets[1].since
  {
    steps, s := Take([], INIT, ResetLoad(0));
    steps, s := Take(steps, s, ResetBuild(0));
    steps, s := Take(steps, s, ResetLoad(1));
    steps, s := Take(steps, s, ResetBuild(1));
    steps, s := Take(steps, s, ResetSwap(0));
    steps, s := Take(steps, s, ResetSwap(1));
  }

  /** A lookup starts over at most once for each wake issued since it began. */
  lemma RetriesAreBounded(steps: seq<Step>, s: State, o: nat)
    requires Reaches(steps, s) && o in s.ops
    ensures s.ops[o].start + s.ops[o].retries <= s.wakes
  {
    RunKeepsInv(INIT, steps, s);
    assert OpOk(s, s.ops[o]);
  }

  /**
   * A lookup gives up only if, when it last looked for a wake, it ran on the resolver then
   * current or some reset was between its exchange and its wake.
   */
  lemma TimeoutIsJustified(steps: seq<Step>, s: State, o: nat)
    requires Reaches(steps, s) && o in s.ops && s.ops[o].TimedOut?
    ensures s.ops[o].moment.current == s.ops[o].resolver || s.ops[o].moment.swapping
  {
    RunKeepsInv(INIT, steps, s);
    assert OpOk(s, s.ops[o]);
  }

  /**
   * At the time of giving up the same can only be false because a wake came in between: when
   * the lookup is still unwoken, it runs on the current resolver or a wake is to come.
   */
  lemma TimeoutWithoutLateWake(steps: seq<Step>, s: State, o: nat)
    requires Reaches(steps, s) && Enabled(s, OpTimeout(o)) && s.wakes <= s.ops[o].ticket
    ensures s.ops[o].resolver == s.current || WakeToCome(s, s.ops[o].resolver)
  {
    RunKeepsInv(INIT, steps, s);
    assert OpOk(s, s.ops[o]);
  }

  /**
   * Exactly: it is false when the reset that replaced the resolver has returned, its wake
   * unseen, and no other reset is between its exchange and its wake.
   */
  lemma TimeoutExactly(steps: seq<Step>, s: State, o: nat)
    requires Reaches(steps, s) && Enabled(s, OpTimeout(o))
    ensures s.ops[o].resolver == s.current || Swapping(s) <==>
      Swapping(s) || !exists r | r in s.resets ::
        s.resets[r].Finished? && s.resets[r].won && s.resets[r].guard == s.ops[o].resolver
  {
    RunKeepsInv(INIT, steps, s);
    assert OpOk(s, s.ops[o]);
    forall r | r in s.resets ensures ResetOk(s, s.resets[r]) {}
  }

  /** A run in which it is false: a whole reset fits between the two checks of one poll. */
  lemma LateWakeRun() returns (steps: seq<Step>, s: State)
    ensures Reaches(steps, s) && Enabled(s, OpTimeout(0)) && !Swapping(s)
    ensures s.ops[0].resolver != s.current
  {
    steps, s := Take([], INIT, OpStart(0));
    steps, s := Take(steps, s, OpEnable(0));
    steps, s := Take(steps, s, OpLoad(0));
    steps, s := Take(steps, s, OpNotWoken(0));
    steps, s := ResetRun(steps, s, 0);
  }

  /** A reset with nothing in between. */
  lemma ResetRun(steps: seq<Step>, s: State, r: nat) returns (steps': seq<Step>, s': State)
    requires Reaches(steps, s) && r !in s.resets
    ensures Reaches(steps', s')
    ensures s' == s.(current := s.built, built := s.built + 1, wakes := s.wakes + 1,
                     resets := s.resets[r := Finished(s.current, s.built, s.built, true)])
  {
    steps', s' := Take(steps, s, ResetLoad(r));
    steps', s' := Take(steps', s', ResetBuild(r));
    steps', s' := Take(steps', s', ResetSwap(r));
    steps', s' := Take(steps', s', ResetNotify(r));
    assert s'.resets == s.resets[r := Finished(s.current, s.built, s.built, true)];
  }

  lemma Take(steps: seq<Step>, s: State, step: Step) returns (steps': seq<Step>, s': State)
    requires Reaches(steps, s) && Enabled(s, step)
    ensures s' == Apply(s, step) && Reaches(steps', s')
  {
    steps', s' := steps + [step], Apply(s, step);
    Extend(Next, INIT, steps, s, step);
  }
}
