/**
 * The registry of address lookup services with overlapping calls. `publish` reads the filter,
 * takes a read lock on the services, gives the data to one service after the other, and writes
 * it down as the last data before it lets go of the lock; so any number of publications
 * overlap. `add` reads the last data and hands it over, and later takes a write lock to append
 * the service. Any number of calls interleave, one access at a time.
 */
module AddressLookupRaces {
  import opened Wrappers
  import opened Runs
  import opened AddressLookup

  type Id = nat

  /** A service, and the publication whose data it was given last, if it was given any. */
  datatype Entry = Entry(service: Service, giver: Option<Id>)

  datatype Call =
    | Filtered(out: Data)
    | Giving(out: Data, given: nat)
    | Published(out: Data)
    | CaughtUp(entry: Entry)
    | Added

  /** `lastBy` is the publication that wrote down the last data. */
  datatype State = State(
    entries: seq<Entry>, lastData: Option<Data>, lastBy: Option<Id>, filter: Option<Filter>,
    calls: map<Id, Call>)

  datatype Step =
    | ReadFilter(c: Id, data: Data)
    | Lock(c: Id)
    | GiveNext(c: Id)
    | Remember(c: Id)
    | CatchUpWith(c: Id, service: Service)
    | Push(c: Id)
    | Clear
    | SetFilter(f: Filter)

  const INIT := State([], None, None, None, map[])

  predicate IsGiving(s: State, c: Id) {
    c in s.calls && s.calls[c].Giving?
  }

  /** Nobody holds a read lock on the services. */
  predicate Unlocked(s: State) {
    forall c | c in s.calls :: !s.calls[c].Giving?
  }

  predicate Enabled(s: State, step: Step) {
    match step
    case ReadFilter(c, _) => c !in s.calls
    case Lock(c) => c in s.calls && s.calls[c].Filtered?
    case GiveNext(c) => IsGiving(s, c) && s.calls[c].given < |s.entries|
    case Remember(c) => IsGiving(s, c) && s.calls[c].given == |s.entries|
    case CatchUpWith(c, _) => c !in s.calls
    case Push(c) => c in s.calls && s.calls[c].CaughtUp? && Unlocked(s)
    case Clear => Unlocked(s)
    case SetFilter(_) => true
  }

  function Apply(s: State, step: Step): (s': State)
    requires Enabled(s, step)
  {
    match step
    case ReadFilter(c, data) => s.(calls := s.calls[c := Filtered(Outgoing(s.filter, data))])
    case Lock(c) => s.(calls := s.calls[c := Giving(s.calls[c].out, 0)])
    case GiveNext(c) =>
      var out, i := s.calls[c].out, s.calls[c].given;
      s.(entries := s.entries[i := Entry(Give(s.entries[i].service, out), Some(c))],
         calls := s.calls[c := Giving(out, i + 1)])
    case Remember(c) =>
      var out := s.calls[c].out;
      s.(lastData := Some(out), lastBy := Some(c), calls := s.calls[c := Published(out)])
    case CatchUpWith(c, service) =>
      s.(calls := s.calls[c := CaughtUp(Entry(CatchUp(s.lastData, service), s.lastBy))])
    case Push(c) =>
      s.(entries := s.entries + [s.calls[c].entry], calls := s.calls[c := Added])
    case Clear => s.(entries := [])
    case SetFilter(f) => s.(filter := Some(f))
  }

  function Next(s: State, step: Step): (r: Option<State>) {
    if Enabled(s, step) then Some(Apply(s, step)) else None
  }

  ghost predicate Reaches(steps: seq<Step>, s: State) {
    After(Next, INIT, steps) == Some(s)
  }

  // Invariant -------------------------------------------------------------------------------

  /** What a service was given last is the data of its giver. */
  ghost predicate EntryOk(s: State, e: Entry) {
    e.giver.Some? ==>
      && e.giver.value in s.calls
      && (s.calls[e.giver.value].Giving? || s.calls[e.giver.value].Published?)
      && LastOf(e.service.received, None) == Some(s.calls[e.giver.value].out)
  }

  ghost predicate LastOk(s: State) {
    && (s.lastBy.None? <==> s.lastData.None?)
    && (s.lastBy.Some? ==>
          && s.lastBy.value in s.calls && s.calls[s.lastBy.value].Published?
          && s.lastData == Some(s.calls[s.lastBy.value].out))
  }

  ghost predicate CallOk(s: State, call: Call) {
    && (call.Giving? ==>
          && call.given <= |s.entries|
          && forall i | 0 <= i < call.given :: s.entries[i].giver.Some?)
    && (call.CaughtUp? ==> EntryOk(s, call.entry))
  }

  ghost predicate Inv(s: State) {
    && LastOk(s)
    && (forall i | 0 <= i < |s.entries| :: EntryOk(s, s.entries[i]))
    && forall c | c in s.calls :: CallOk(s, s.calls[c])
  }

  lemma EntryStaysOk(s: State, step: Step, e: Entry)
    requires Enabled(s, step) && EntryOk(s, e)
    ensures EntryOk(Apply(s, step), e)
  {}

  lemma StepKeepsEntry(s: State, step: Step, i: nat)
    requires Inv(s) && Enabled(s, step) && i < |Apply(s, step).entries|
    ensures EntryOk(Apply(s, step), Apply(s, step).entries[i])
  {
    if i < |s.entries| && Apply(s, step).entries[i] == s.entries[i] {
      EntryStaysOk(s, step, s.entries[i]);
    } else if step.Push? {
      assert CallOk(s, s.calls[step.c]);
      EntryStaysOk(s, step, s.calls[step.c].entry);
    }
  }

  lemma StepKeepsCall(s: State, step: Step, c: Id)
    requires Inv(s) && Enabled(s, step) && c in Apply(s, step).calls
    ensures CallOk(Apply(s, step), Apply(s, step).calls[c])
  {
    if c in s.calls { assert CallOk(s, s.calls[c]); }
    var call := Apply(s, step).calls[c];
    if call.CaughtUp? && c in s.calls {
      EntryStaysOk(s, step, call.entry);
    }
  }

  lemma StepKeepsInv(s: State, step: Step)
    requires Inv(s) && Enabled(s, step)
    ensures Inv(Apply(s, step))
  {
    var s' := Apply(s, step);
    forall i | 0 <= i < |s'.entries| ensures EntryOk(s', s'.entries[i]) {
      StepKeepsEntry(s, step, i);
    }
    forall c | c in s'.calls ensures CallOk(s', s'.calls[c]) {
      StepKeepsCall(s, step, c);
    }
  }

  lemma RunKeepsInv(s: State, steps: seq<Step>, s': State)
    requires Inv(s) && After(Next, s, steps) == Some(s')
    ensures Inv(s')
  {
    forall t, step | Inv(t) && Next(t, step).Some? ensures Inv(Next(t, step).value) {
      StepKeepsInv(t, step);
    }
    Holds(Next, Inv, (t, u) => true, s, steps);
  }

  // Staying in step -------------------------------------------------------------------------

  /** A publication under way that gave to the `i`-th service last, or has it still to do. */
  ghost predicate WillSettle(s: State, d: Id, i: nat)
    requires i < |s.entries|
  {
    IsGiving(s, d) && (s.calls[d].given <= i || s.entries[i].giver == Some(d))
  }

  /** The `i`-th service has the data written down last, or a publication will see to it. */
  ghost predicate InStep(s: State, i: nat)
    requires i < |s.entries|
  {
    s.entries[i].giver == s.lastBy || exists d | d in s.calls :: WillSettle(s, d, i)
  }

  ghost predicate AllInStep(s: State) {
    forall i | 0 <= i < |s.entries| :: InStep(s, i)
  }

  /** With no publication under way, a service in step was last given the last data. */
  lemma InStepMeansUpToDate(steps: seq<Step>, s: State, i: nat)
    requires Reaches(steps, s) && Unlocked(s) && i < |s.entries| && InStep(s, i)
    ensures s.lastData.Some? ==> LastOf(s.entries[i].service.received, None) == s.lastData
  {
    RunKeepsInv(INIT, steps, s);
    assert EntryOk(s, s.entries[i]);
  }

  /**
   * The publication that is written down gave to the `i`-th service before the one that gave
   * to it last, and no other one under way will settle it.
   */
  ghost predicate Overtaken(s: State, step: Step, i: nat)
    requires Enabled(s, step)
  {
    && step.Remember? && i < |s.entries| && s.entries[i].giver != Some(step.c)
    && !exists d | d in s.calls && d != step.c :: WillSettle(s, d, i)
  }

  /** The service that is appended was handed over something other than the last data. */
  ghost predicate AddsOutdated(s: State, step: Step, i: nat)
    requires Enabled(s, step)
  {
    step.Push? && i == |s.entries| && s.calls[step.c].entry.giver != s.lastBy
  }

  /** A service gets out of step in these two ways only, and then always. */
  lemma OutOfStepExactly(s: State, step: Step, i: nat)
    requires Inv(s) && Enabled(s, step) && i < |Apply(s, step).entries|
    requires i < |s.entries| ==> InStep(s, i)
    ensures !InStep(Apply(s, step), i) <==> Overtaken(s, step, i) || AddsOutdated(s, step, i)
  {
    match step {
      case Remember(c) => RememberExactly(s, c, i);
      case Push(c) =>
      case _ => OthersStayInStep(s, step, i);
    }
  }

  lemma RememberExactly(s: State, c: Id, i: nat)
    requires Inv(s) && Enabled(s, Remember(c)) && i < |s.entries|
    ensures !InStep(Apply(s, Remember(c)), i) <==> Overtaken(s, Remember(c), i)
  {
    var s' := Apply(s, Remember(c));
    forall d | d in s.calls && d != c ensures WillSettle(s', d, i) <==> WillSettle(s, d, i) {}
    assert !WillSettle(s', c, i);
  }

  lemma OthersStayInStep(s: State, step: Step, i: nat)
    requires Enabled(s, step) && !step.Remember? && !step.Push?
    requires i < |Apply(s, step).entries| && i < |s.entries| && InStep(s, i)
    ensures InStep(Apply(s, step), i)
  {
    var s' := Apply(s, step);
    if step.GiveNext? && s.calls[step.c].given == i {
      assert WillSettle(s', step.c, i);
    } else if s.entries[i].giver != s.lastBy {
      var d :| d in s.calls && WillSettle(s, d, i);
      assert WillSettle(s', d, i);
    }
  }

  /** Who overtook has been written down already: it gave later and was written down earlier. */
  lemma OvertakenBy(steps: seq<Step>, s: State, c: Id, i: nat) returns (d: Id)
    requires Reaches(steps, s) && Enabled(s, Remember(c)) && Overtaken(s, Remember(c), i)
    ensures d != c && s.entries[i].giver == Some(d) && d in s.calls && s.calls[d].Published?
  {
    RunKeepsInv(INIT, steps, s);
    assert CallOk(s, s.calls[c]) && EntryOk(s, s.entries[i]);
    d := s.entries[i].giver.value;
    assert !WillSettle(s, d, i);
  }

  // Whole runs ------------------------------------------------------------------------------

  ghost predicate GetsOutOfStep(s: State, step: Step)
    requires Enabled(s, step)
  {
    exists i | 0 <= i <= |s.entries| :: Overtaken(s, step, i) || AddsOutdated(s, step, i)
  }

  ghost predicate AlwaysInStep(s: State, steps: seq<Step>)
    decreases |steps|
  {
    && AllInStep(s)
    && (steps != [] && Enabled(s, steps[0]) ==> AlwaysInStep(Apply(s, steps[0]), steps[1..]))
  }

  ghost predicate NeverOutOfStep(s: State, steps: seq<Step>)
    decreases |steps|
  {
    steps != [] && Enabled(s, steps[0]) ==>
      !GetsOutOfStep(s, steps[0]) && NeverOutOfStep(Apply(s, steps[0]), steps[1..])
  }

  lemma AllInStepExactly(s: State, step: Step)
    requires Inv(s) && Enabled(s, step) && AllInStep(s)
    ensures AllInStep(Apply(s, step)) <==> !GetsOutOfStep(s, step)
  {
    var s' := Apply(s, step);
    forall i | 0 <= i < |s'.entries|
      ensures !InStep(s', i) <==> Overtaken(s, step, i) || AddsOutdated(s, step, i)
    {
      OutOfStepExactly(s, step, i);
    }
  }

  lemma {:induction false} InStepExactly(s: State, steps: seq<Step>)
    requires Inv(s) && AllInStep(s) && After(Next, s, steps).Some?
    ensures AlwaysInStep(s, steps) <==> NeverOutOfStep(s, steps)
    decreases |steps|
  {
    if steps != [] {
      AllInStepExactly(s, steps[0]);
      StepKeepsInv(s, steps[0]);
      if AllInStep(Apply(s, steps[0])) {
        InStepExactly(Apply(s, steps[0]), steps[1..]);
      }
    }
  }

  /** In a whole run the services are in step throughout exactly if no such step occurs. */
  lemma RunsInStepExactly(steps: seq<Step>)
    requires After(Next, INIT, steps).Some?
    ensures AlwaysInStep(INIT, steps) <==> NeverOutOfStep(INIT, steps)
  {
    InStepExactly(INIT, steps);
  }

  // Filters ---------------------------------------------------------------------------------

  /** Data that has been through the filter. */
  ghost predicate Passed(f: Filter, d: Data) {
    exists data :: d == Outgoing(Some(f), data)
  }

  ghost predicate CallPassed(f: Filter, call: Call) {
    call.Filtered? || call.Giving? || call.Published? ==> Passed(f, call.out)
  }

  ghost predicate AllPassed(f: Filter, s: State) {
    s.filter == Some(f) && forall c | c in s.calls :: CallPassed(f, s.calls[c])
  }

  lemma StepPassesFilter(f: Filter, s: State, step: Step)
    requires Enabled(s, step) && !step.SetFilter? && AllPassed(f, s)
    ensures AllPassed(f, Apply(s, step))
  {
    var s' := Apply(s, step);
    forall c | c in s'.calls ensures CallPassed(f, s'.calls[c]) {
      if c in s.calls { assert CallPassed(f, s.calls[c]); }
    }
  }

  lemma {:induction false} RunPassesFilter(f: Filter, s: State, steps: seq<Step>, s': State)
    requires After(Next, s, steps) == Some(s') && AllPassed(f, s)
    requires forall i | 0 <= i < |steps| :: !steps[i].SetFilter?
    ensures AllPassed(f, s')
    decreases |steps|
  {
    if steps != [] {
      StepPassesFilter(f, s, steps[0]);
      RunPassesFilter(f, Apply(s, steps[0]), steps[1..], s');
    }
  }

  /**
   * When a filter is set before anything else and not changed, all that services are given, and
   * the last data, has been through it, whatever overlaps.
   */
  lemma FilterIsPassed(f: Filter, steps: seq<Step>, s: State, i: nat)
    requires Reaches([Step.SetFilter(f)] + steps, s)
    requires forall i | 0 <= i < |steps| :: !steps[i].SetFilter?
    ensures s.lastData.Some? ==> Passed(f, s.lastData.value)
    ensures i < |s.entries| && s.entries[i].giver.Some? ==>
      s.entries[i].service.received != [] && Passed(f, LastOf(s.entries[i].service.received, None).value)
  {
    var all := [Step.SetFilter(f)] + steps;
    assert all[0] == Step.SetFilter(f) && all[1..] == steps;
    RunPassesFilter(f, Apply(INIT, Step.SetFilter(f)), steps, s);
    RunKeepsInv(INIT, all, s);
    if s.lastBy.Some? { assert CallPassed(f, s.calls[s.lastBy.value]); }
    if i < |s.entries| && s.entries[i].giver.Some? {
      assert EntryOk(s, s.entries[i]);
      assert CallPassed(f, s.calls[s.entries[i].giver.value]);
    }
  }

  // A run in which they get out of step -----------------------------------------------------

  lemma Take(steps: seq<Step>, s: State, step: Step) returns (steps': seq<Step>, s': State)
    requires Reaches(steps, s) && Enabled(s, step)
    ensures s' == Apply(s, step) && Reaches(steps', s')
  {
    steps', s' := steps + [step], Apply(s, step);
    Extend(Next, INIT, steps, s, step);
  }

  lemma AddRun(service: Service) returns (steps: seq<Step>, s: State)
    ensures Reaches(steps, s)
    ensures s == State([Entry(service, None)], None, None, None, map[0 := Added])
  {
    steps, s := Take([], INIT, CatchUpWith(0, service));
    steps, s := Take(steps, s, Push(0));
    assert s.calls == map[0 := Added];
  }

  /** Both publications hold the lock. */
  lemma LockRun(service: Service, a: Data, b: Data) returns (steps: seq<Step>, s: State)
    ensures Reaches(steps, s)
    ensures s == State([Entry(service, None)], None, None, None,
                       map[0 := Added, 1 := Giving(a, 0), 2 := Giving(b, 0)])
  {
    steps, s := AddRun(service);
    steps, s := Take(steps, s, ReadFilter(1, a));
    steps, s := Take(steps, s, Lock(1));
    steps, s := Take(steps, s, ReadFilter(2, b));
    steps, s := Take(steps, s, Lock(2));
    assert s.calls == map[0 := Added, 1 := Giving(a, 0), 2 := Giving(b, 0)];
  }

  /**
   * Two publications overlap. The service is given the one and then the other, they are written
   * down in the other order, and both have returned.
   */
  lemma OvertakenRun(service: Service, a: Data, b: Data) returns (steps: seq<Step>, s: State)
    ensures Reaches(steps, s) && Unlocked(s) && s.lastData == Some(a)
    ensures |s.entries| == 1 && s.entries[0].service == Give(Give(service, a), b)
  {
    steps, s := LockRun(service, a, b);
    steps, s := Take(steps, s, GiveNext(1));
    steps, s := Take(steps, s, GiveNext(2));
    steps, s := Take(steps, s, Remember(2));
    steps, s := Take(steps, s, Remember(1));
  }
}
