/**
 * `Timestamp::now`: a lock-free clock that, until it gets to the largest value, never repeats
 * and never goes back, whatever the system clock does. Any number of calls interleave, one
 * atomic access at a time, all with relaxed ordering: a load may see any earlier value of the
 * cell, and only a successful exchange is certain to see the latest one.
 */
module Clock {
  import opened Wrappers
  import opened Bytes
  import opened Runs

  type CallId = nat

  /** A successful exchange: who made it and what value the cell got. */
  datatype Entry = Entry(caller: CallId, value: u64)

  /**
   * Where a call stands. `began` is the number of exchanges made when the call started. In the
   * retry loop, `at` is the position in the cell's history of the value `last`, `first` the
   * position loaded before the loop, and `retries` the number of failed exchanges that were
   * not spurious.
   */
  datatype Call =
    | Started(micros: u64, began: nat)
    | Looping(micros: u64, began: nat, first: nat, at: nat, retries: nat)
    | Returned(micros: u64, began: nat, index: nat)

  datatype State = State(log: seq<Entry>, calls: map<CallId, Call>)

  datatype Step =
    | Begin(c: CallId, micros: u64)
    | Load(c: CallId, at: nat)
    | Swap(c: CallId)
    | Fail(c: CallId, actual: nat)
    | FailSpuriously(c: CallId)

  const INIT := State([], map[])

  const MAX_VALUE: u64 := U64_LIMIT - 1

  /** The value of the cell after `i` exchanges. */
  function Cell(log: seq<Entry>, i: nat): (v: u64)
    requires i <= |log|
  {
    if i == 0 then 0 else log[i - 1].value
  }

  /** `micros.max(last + 1)`, with the addition wrapping around. */
  function NextValue(micros: u64, last: u64): (v: u64) {
    var succ := (last + 1) % U64_LIMIT;
    if micros >= succ then micros else succ
  }

  /** The next value is a later one exactly when the last one is not the largest. */
  lemma NextValueIsLater(micros: u64, last: u64)
    ensures NextValue(micros, last) > last <==> last < MAX_VALUE
    ensures NextValue(micros, last) >= micros
  {}

  /** And then it is the least value that is later and not before the reading of the clock. */
  lemma NextValueIsLeast(micros: u64, last: u64, v: u64)
    requires last < MAX_VALUE && v >= micros && v > last
    ensures NextValue(micros, last) <= v
  {}

  predicate InLoop(s: State, c: CallId) {
    c in s.calls && s.calls[c].Looping? && s.calls[c].at <= |s.log|
  }

  predicate Enabled(s: State, step: Step) {
    match step
    case Begin(c, _) => c !in s.calls
    case Load(c, at) => c in s.calls && s.calls[c].Started? && at <= |s.log|
    case Swap(c) => InLoop(s, c) && Cell(s.log, s.calls[c].at) == Cell(s.log, |s.log|)
    case Fail(c, actual) =>
      && InLoop(s, c) && s.calls[c].at <= actual <= |s.log|
      && Cell(s.log, actual) != Cell(s.log, s.calls[c].at)
    case FailSpuriously(c) => InLoop(s, c)
  }

  function Apply(s: State, step: Step): (s': State)
    requires Enabled(s, step)
  {
    match step
    case Begin(c, micros) => s.(calls := s.calls[c := Started(micros, |s.log|)])
    case Load(c, at) =>
      var call := s.calls[c];
      s.(calls := s.calls[c := Looping(call.micros, call.began, at, at, 0)])
    case Swap(c) =>
      var call := s.calls[c];
      var value := NextValue(call.micros, Cell(s.log, call.at));
      State(s.log + [Entry(c, value)],
            s.calls[c := Returned(call.micros, call.began, |s.log|)])
    case Fail(c, actual) =>
      var call := s.calls[c];
      s.(calls := s.calls[c := call.(at := actual, retries := call.retries + 1)])
    case FailSpuriously(_) => s
  }

  function Next(s: State, step: Step): (r: Option<State>) {
    if Enabled(s, step) then Some(Apply(s, step)) else None
  }

  ghost predicate Reaches(steps: seq<Step>, s: State) {
    After(Next, INIT, steps) == Some(s)
  }

  // Invariant -------------------------------------------------------------------------------

  ghost predicate CallOk(s: State, c: CallId)
    requires c in s.calls
  {
    match s.calls[c]
    case Started(_, began) => began <= |s.log|
    case Looping(_, began, first, at, retries) =>
      began <= |s.log| && first <= at <= |s.log| && retries <= at - first
    case Returned(micros, began, index) =>
      && began <= index < |s.log|
      && s.log[index].caller == c && micros <= s.log[index].value
  }

  /** Who made an exchange has returned from it, and made the value from the one before. */
  ghost predicate EntryOk(s: State, i: nat)
    requires i < |s.log|
  {
    var c := s.log[i].caller;
    && c in s.calls && s.calls[c].Returned? && s.calls[c].index == i
    && s.log[i].value == NextValue(s.calls[c].micros, Cell(s.log, i))
  }

  ghost predicate Inv(s: State) {
    && (forall c | c in s.calls :: CallOk(s, c))
    && forall i | 0 <= i < |s.log| :: EntryOk(s, i)
  }

  lemma StepKeepsCalls(s: State, step: Step, c: CallId)
    requires Inv(s) && Enabled(s, step) && c in Apply(s, step).calls
    ensures CallOk(Apply(s, step), c)
  {
    if c in s.calls { assert CallOk(s, c); }
  }

  lemma StepKeepsEntries(s: State, step: Step, i: nat)
    requires Inv(s) && Enabled(s, step) && i < |Apply(s, step).log|
    ensures EntryOk(Apply(s, step), i)
  {
    var s' := Apply(s, step);
    if i < |s.log| {
      assert EntryOk(s, i) && s'.log[i] == s.log[i] && Cell(s'.log, i) == Cell(s.log, i);
    }
  }

  lemma StepKeepsInv(s: State, step: Step)
    requires Inv(s) && Enabled(s, step)
    ensures Inv(Apply(s, step))
  {
    var s' := Apply(s, step);
    forall c | c in s'.calls ensures CallOk(s', c) {
      StepKeepsCalls(s, step, c);
    }
    forall i | 0 <= i < |s'.log| ensures EntryOk(s', i) {
      StepKeepsEntries(s, step, i);
    }
  }

  /** What happened stays as it was. */
  ghost predicate Extends(s: State, s': State) {
    && s.log <= s'.log
    && forall c | c in s.calls ::
         && c in s'.calls && s'.calls[c].began == s.calls[c].began
         && (s.calls[c].Returned? ==> s'.calls[c] == s.calls[c])
  }

  lemma RunKeepsInv(s: State, steps: seq<Step>, s': State)
    requires Inv(s) && After(Next, s, steps) == Some(s')
    ensures Inv(s') && Extends(s, s')
  {
    forall t, step | Inv(t) && Next(t, step).Some?
      ensures Inv(Next(t, step).value) && Extends(t, Next(t, step).value)
    {
      StepKeepsInv(t, step);
    }
    Holds(Next, Inv, Extends, s, steps);
  }

  // What every run promises -----------------------------------------------------------------

  ghost predicate HasReturned(s: State, c: CallId) {
    c in s.calls && s.calls[c].Returned? && s.calls[c].index < |s.log|
  }

  ghost function ResultOf(s: State, c: CallId): (v: u64)
    requires HasReturned(s, c)
  {
    s.log[s.calls[c].index].value
  }

  /** Every exchange makes the value of the cell larger. */
  ghost predicate Increasing(log: seq<Entry>) {
    forall i, j | 0 <= i < j <= |log| :: Cell(log, i) < Cell(log, j)
  }

  /** No exchange but the last has made it the largest value there is. */
  ghost predicate Unwrapped(log: seq<Entry>) {
    forall i | 0 <= i < |log| - 1 :: log[i].value < MAX_VALUE
  }

  lemma {:induction false} CellIncreases(s: State, i: nat, j: nat)
    requires Inv(s) && Unwrapped(s.log) && i < j <= |s.log|
    ensures Cell(s.log, i) < Cell(s.log, j)
    decreases j
  {
    assert EntryOk(s, j - 1);
    NextValueIsLater(s.calls[s.log[j - 1].caller].micros, Cell(s.log, j - 1));
    if i < j - 1 {
      CellIncreases(s, i, j - 1);
    }
  }

  /** In every run the values increase exactly as long as the largest one has not been passed. */
  lemma IncreasesExactly(steps: seq<Step>, s: State)
    requires Reaches(steps, s)
    ensures Increasing(s.log) <==> Unwrapped(s.log)
  {
    RunKeepsInv(INIT, steps, s);
    if Unwrapped(s.log) {
      forall i, j | 0 <= i < j <= |s.log| ensures Cell(s.log, i) < Cell(s.log, j) {
        CellIncreases(s, i, j);
      }
    }
    if Increasing(s.log) {
      forall i | 0 <= i < |s.log| - 1 ensures s.log[i].value < MAX_VALUE {
        assert Cell(s.log, i + 1) < Cell(s.log, i + 2);
      }
    }
  }

  /** In every run no result is before the caller's own reading of the clock. */
  lemma ResultsAreNotEarly(steps: seq<Step>, s: State, c: CallId)
    requires Reaches(steps, s) && HasReturned(s, c)
    ensures ResultOf(s, c) >= s.calls[c].micros
  {
    RunKeepsInv(INIT, steps, s);
    assert CallOk(s, c);
  }

  /**
   * In every run a result is the caller's reading of the clock if that is later than the value
   * before it in the history, and else one more than that value; after the largest one it is
   * the reading again.
   */
  lemma ResultExactly(steps: seq<Step>, s: State, c: CallId)
    requires Reaches(steps, s) && HasReturned(s, c)
    ensures var before := Cell(s.log, s.calls[c].index);
      ResultOf(s, c) == if before < s.calls[c].micros || before == MAX_VALUE
                        then s.calls[c].micros else before + 1
  {
    RunKeepsInv(INIT, steps, s);
    assert CallOk(s, c) && EntryOk(s, s.calls[c].index);
  }

  /**
   * As long as the largest value has not been passed, the results of different calls differ
   * and are ordered as the successful exchanges were.
   */
  lemma ResultsAreDistinctAndOrdered(steps: seq<Step>, s: State, c: CallId, d: CallId)
    requires Reaches(steps, s) && Unwrapped(s.log)
    requires c != d && HasReturned(s, c) && HasReturned(s, d)
    ensures ResultOf(s, c) != ResultOf(s, d)
    ensures ResultOf(s, c) < ResultOf(s, d) <==> s.calls[c].index < s.calls[d].index
  {
    RunKeepsInv(INIT, steps, s);
    IncreasesExactly(steps, s);
    assert CallOk(s, c) && CallOk(s, d);
    var i, j := s.calls[c].index + 1, s.calls[d].index + 1;
    assert ResultOf(s, c) == Cell(s.log, i) && ResultOf(s, d) == Cell(s.log, j);
  }

  /** And a call that begins after another one returned gets a larger value. */
  lemma LaterCallGetsLaterTime(
    before: seq<Step>, s: State, c: CallId, d: CallId, micros: u64, rest: seq<Step>, s': State)
    requires Reaches(before, s) && HasReturned(s, c)
    requires Reaches(before + ([Begin(d, micros)] + rest), s') && HasReturned(s', d)
    requires Unwrapped(s'.log)
    ensures HasReturned(s', c) && ResultOf(s', c) == ResultOf(s, c) < ResultOf(s', d)
  {
    var steps := [Begin(d, micros)] + rest;
    Append(Next, INIT, before, steps);
    assert steps[0] == Begin(d, micros) && steps[1..] == rest;
    var begun := Next(s, Begin(d, micros)).value;
    RunKeepsInv(INIT, before, s);
    StepKeepsInv(s, Begin(d, micros));
    RunKeepsInv(begun, rest, s');
    assert CallOk(s', c) && CallOk(s', d);
    ResultsAreDistinctAndOrdered(before + steps, s', c, d);
  }

  /**
   * Every retry that was not spurious was caused by the success of another call: since the
   * value it loaded first, which need not have been the latest, the loop has seen at least as
   * many exchanges of others go by as it made such retries.
   */
  lemma RetriesArePaidFor(steps: seq<Step>, s: State, c: CallId)
    requires Reaches(steps, s) && c in s.calls && s.calls[c].Looping?
    ensures var call := s.calls[c];
            && call.first + call.retries <= call.at <= |s.log|
            && forall i | call.first <= i < call.at :: s.log[i].caller != c
  {
    RunKeepsInv(INIT, steps, s);
    assert CallOk(s, c);
    forall i | s.calls[c].first <= i < s.calls[c].at ensures s.log[i].caller != c {
      assert EntryOk(s, i);
    }
  }

  // Staying below the limit -----------------------------------------------------------------

  ghost predicate ReadsBelow(steps: seq<Step>, bound: nat) {
    forall i | 0 <= i < |steps| :: steps[i].Begin? ==> steps[i].micros <= bound
  }

  ghost predicate Below(s: State, bound: nat) {
    && (forall c | c in s.calls :: s.calls[c].micros <= bound)
    && forall i | 0 <= i < |s.log| :: s.log[i].value <= bound + i + 1
  }

  lemma {:induction false} RunStaysBelow(s: State, steps: seq<Step>, s': State, bound: nat)
    requires Below(s, bound) && After(Next, s, steps) == Some(s') && ReadsBelow(steps, bound)
    ensures Below(s', bound)
    decreases |steps|
  {
    if steps != [] {
      var t := Next(s, steps[0]).value;
      assert forall i | 0 <= i < |s.log| :: t.log[i] == s.log[i];
      assert forall i | 0 <= i < |steps[1..]| :: steps[1..][i] == steps[i + 1];
      RunStaysBelow(t, steps[1..], s', bound);
    }
  }

  /**
   * Results outrun the largest clock reading by at most the number of exchanges, so the
   * largest value is not passed as long as the two together stay below it.
   */
  lemma ResultsStayNearTheClock(steps: seq<Step>, s: State, bound: nat)
    requires Reaches(steps, s) && ReadsBelow(steps, bound)
    ensures Cell(s.log, |s.log|) <= bound + |s.log|
    ensures bound + |s.log| <= MAX_VALUE ==> Unwrapped(s.log)
  {
    RunStaysBelow(INIT, steps, s, bound);
  }

  lemma Take(steps: seq<Step>, s: State, step: Step) returns (steps': seq<Step>, s': State)
    requires Reaches(steps, s) && Enabled(s, step)
    ensures s' == Apply(s, step) && Reaches(steps', s')
  {
    steps', s' := steps + [step], Apply(s, step);
    Extend(Next, INIT, steps, s, step);
  }

  /** When it is passed the clock goes back: here the first call gets it and the second gets 0. */
  lemma WrapRun() returns (steps: seq<Step>, s: State)
    ensures Reaches(steps, s) && HasReturned(s, 0) && HasReturned(s, 1)
    ensures s.calls[0].index < s.calls[1].began
    ensures ResultOf(s, 0) == MAX_VALUE && ResultOf(s, 1) == 0
  {
    steps, s := Take([], INIT, Begin(0, MAX_VALUE));
    steps, s := Take(steps, s, Load(0, 0));
    steps, s := Take(steps, s, Swap(0));
    steps, s := Take(steps, s, Begin(1, 0));
    steps, s := Take(steps, s, Load(1, 1));
    steps, s := Take(steps, s, Swap(1));
  }
}
