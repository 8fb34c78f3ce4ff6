/**
 * The persistent packet store: an actor that owns a table of packets and an index of their
 * timestamps, and an eviction task that scans a snapshot of the index and asks the actor to
 * check, one by one, the entries that look expired.
 */
module PacketStore {
  import opened Wrappers
  import opened Bytes
  import opened Runs
  import opened Pkarr

  type Key = seq<byte>

  /** The parts of a signed packet; `PacketIsItsParts` says that they make it up. */
  datatype Packet = Packet(key: Key, signature: seq<byte>, stamp: Stamp)

  function PacketOf(p: SignedPacket): (r: Packet)
    requires Framed(p)
  {
    Packet(PublicKey(p), Signature(p), StampOf(p))
  }

  /** A packet is determined by its parts. */
  lemma PacketIsItsParts(p: SignedPacket, q: SignedPacket)
    requires Framed(p) && Framed(q)
    ensures PacketOf(p) == PacketOf(q) <==> p == q
  {
    if PacketOf(p) == PacketOf(q) {
      PartsMakeUpBytes(p);
      PartsMakeUpBytes(q);
    }
  }

  /** The two tables. The index is a multimap from timestamps to keys. */
  datatype Tables = Tables(packets: map<Key, Packet>, index: set<(u64, Key)>)

  const EMPTY := Tables(map[], {})

  predicate Superseded(packets: map<Key, Packet>, p: Packet) {
    p.key in packets && MoreRecent(packets[p.key].stamp, p.stamp)
  }

  /** An upsert is refused only when a more recent packet is stored. */
  function Upserted(t: Tables, p: Packet): (t': Tables) {
    if Superseded(t.packets, p) then t
    else
      var gone := if p.key in t.packets then {(t.packets[p.key].stamp.timestamp, p.key)} else {};
      Tables(t.packets[p.key := p], t.index - gone + {(p.stamp.timestamp, p.key)})
  }

  /** An upsert counts as an update also when it repeats what is stored. */
  lemma UpdatedExactly(t: Tables, p: Packet)
    ensures !Superseded(t.packets, p) <==>
      || p.key !in t.packets
      || MoreRecent(p.stamp, t.packets[p.key].stamp)
      || p.stamp == t.packets[p.key].stamp
  {
    if p.key in t.packets {
      RecencyIsStrictTotalOrder(p.stamp, t.packets[p.key].stamp, p.stamp);
      RecencyIsStrictTotalOrder(t.packets[p.key].stamp, p.stamp, p.stamp);
    }
  }

  /** For one: a packet that is published again. */
  lemma RepeatIsAnUpdate(t: Tables, p: Packet)
    requires Indexed(t) && p.key in t.packets && t.packets[p.key] == p
    ensures !Superseded(t.packets, p) && Upserted(t, p) == t
    ensures !MoreRecent(p.stamp, t.packets[p.key].stamp)
  {
    RecencyIsStrictTotalOrder(p.stamp, p.stamp, p.stamp);
  }

  /** The check of one index entry drops the entry, and the packet if that has expired. */
  function Checked(t: Tables, time: u64, key: Key, expired: nat): (t': Tables) {
    var index := t.index - {(time, key)};
    if key in t.packets && t.packets[key].stamp.timestamp < expired
    then Tables(t.packets - {key}, index)
    else Tables(t.packets, index)
  }

  /** Times before this are expired: `now - eviction`, not below zero. */
  function Cutoff(now: nat, eviction: nat): (c: nat) {
    if now <= eviction then 0 else now - eviction
  }

  /** A time is before the cutoff exactly if more than the eviction period has passed since. */
  lemma CutoffMeans(time: nat, now: nat, eviction: nat)
    ensures time < Cutoff(now, eviction) <==> time + eviction < now
  {}

  /**
   * A check removes the index entry, and the packet exactly if more than the eviction period
   * has passed since its timestamp; nothing else changes.
   */
  lemma CheckedExactly(t: Tables, time: u64, key: Key, now: nat, eviction: nat)
    ensures var t' := Checked(t, time, key, Cutoff(now, eviction));
      && t'.index == t.index - {(time, key)}
      && (forall k | k in t'.packets :: k in t.packets && t'.packets[k] == t.packets[k])
      && (forall k | k in t.packets ::
            k !in t'.packets <==> k == key && t.packets[k].stamp.timestamp + eviction < now)
  {}

  // Invariants of the tables ----------------------------------------------------------------

  /** Every packet is filed under its key and its timestamp is in the index. */
  ghost predicate Indexed(t: Tables) {
    forall k | k in t.packets ::
      t.packets[k].key == k && (t.packets[k].stamp.timestamp, k) in t.index
  }

  /** An index entry is the timestamp of a stored packet, or expired already. */
  ghost predicate NoStrayEntries(t: Tables, cutoff: nat) {
    forall e | e in t.index ::
      e.0 < cutoff || (e.1 in t.packets && t.packets[e.1].stamp.timestamp == e.0)
  }

  lemma UpsertKeepsTables(t: Tables, p: Packet, cutoff: nat)
    requires Indexed(t) && NoStrayEntries(t, cutoff)
    ensures Indexed(Upserted(t, p)) && NoStrayEntries(Upserted(t, p), cutoff)
  {}

  /** Relies on the check coming no earlier, by the clock, than the scan that asked for it. */
  lemma CheckKeepsTables(t: Tables, time: u64, key: Key, cutoff: nat, expired: nat)
    requires Indexed(t) && NoStrayEntries(t, cutoff)
    requires time < cutoff <= expired
    ensures Indexed(Checked(t, time, key, expired))
    ensures NoStrayEntries(Checked(t, time, key, expired), expired)
  {}

  // The actor -------------------------------------------------------------------------------

  class Actor {
    var packets: map<Key, Packet>
    var index: set<(u64, Key)>
    const eviction: nat

    ghost function Contents(): (t: Tables)
      reads this
    {
      Tables(packets, index)
    }

    constructor (eviction: nat)
      ensures Contents() == EMPTY && this.eviction == eviction
    {
      packets, index := map[], {};
      this.eviction := eviction;
    }

    method Get(key: Key) returns (r: Option<Packet>)
      ensures r == if key in packets then Some(packets[key]) else None
    {
      if key in packets {
        r := Some(packets[key]);
      } else {
        r := None;
      }
    }

    /** True also when an equal packet was stored before, not only for a new newest one. */
    method Upsert(p: Packet) returns (updated: bool)
      modifies this
      ensures updated == !old(Superseded(packets, p))
      ensures Contents() == Upserted(old(Contents()), p)
    {
      var existing := Get(p.key);
      if existing.Some? {
        if MoreRecent(existing.value.stamp, p.stamp) {
          return false;
        }
        index := index - {(existing.value.stamp.timestamp, p.key)};
      }
      packets := packets[p.key := p];
      index := index + {(p.stamp.timestamp, p.key)};
      updated := true;
    }

    method CheckExpired(time: u64, key: Key, now: u64)
      modifies this
      ensures Contents() == Checked(old(Contents()), time, key, Cutoff(now, eviction))
    {
      var existing := Get(key);
      match existing {
        case Some(packet) =>
          var expired := Cutoff(now, eviction);
          if packet.stamp.timestamp < expired {
            index := index - {(time, key)};
            packets := packets - {key};
          } else {
            index := index - {(time, key)};
          }
        case None => index := index - {(time, key)};
      }
    }

    /**
     * One round of the eviction task with nothing in between: `entries` is the expired part of
     * the index at `now`, and `times` are the clock readings of the checks. Afterwards nothing
     * that had expired at `now` is left, and nothing is lost that has not expired since.
     */
    method EvictionRound(now: u64, entries: seq<(u64, Key)>, times: seq<u64>)
      requires Indexed(Contents())
      requires forall e :: e in entries <==> e in index && e.0 + eviction < now
      requires |times| == |entries|
      requires forall i | 0 <= i < |times| :: now < times[i]
      requires forall i, j | 0 <= i < j < |times| :: times[i] < times[j]
      modifies this
      ensures Indexed(Contents())
      ensures forall e | e in index :: e.0 + eviction >= now
      ensures forall k | k in packets ::
        packets[k].stamp.timestamp + eviction >= now
        && k in old(packets) && packets[k] == old(packets)[k]
      ensures forall k | k in old(packets) ::
        old(packets)[k].stamp.timestamp + eviction
          >= (if times == [] then now else times[|times| - 1])
        ==> k in packets
    {
      ghost var clock := now;
      for i := 0 to |entries|
        invariant clock == if i == 0 then now else times[i - 1]
        invariant Indexed(Contents())
        invariant forall e | e in index :: e in old(index) && e !in entries[..i]
        invariant forall k | k in packets :: k in old(packets) && packets[k] == old(packets)[k]
        invariant forall k | k in old(packets) ::
          old(packets)[k].stamp.timestamp + eviction >= clock ==> k in packets
      {
        var (time, key) := entries[i];
        assert entries[i] in entries;
        CheckExpired(time, key, times[i]);
        clock := times[i];
        assert entries[..i + 1] == entries[..i] + [entries[i]];
      }
      assert entries[..|entries|] == entries;
    }
  }

  // All interleavings of upserts, scans and checks ------------------------------------------

  /**
   * `clock` is the latest reading of the strictly monotonic clock, `queue` the checks the
   * eviction task has asked for and the actor has not yet done.
   */
  datatype State = State(tables: Tables, clock: nat, queue: seq<(u64, Key)>, eviction: nat)

  datatype Step =
    | Upsert(p: Packet)
    | Scan(now: u64, batch: seq<(u64, Key)>)
    | Check(now: u64)

  /** A scan may work on an old snapshot: its batch is any set of entries expired at `now`. */
  predicate Enabled(s: State, step: Step) {
    match step
    case Upsert(p) => true
    case Scan(now, batch) => s.clock < now && forall e | e in batch :: e.0 < Cutoff(now, s.eviction)
    case Check(now) => s.clock < now && s.queue != []
  }

  function Apply(s: State, step: Step): (s': State)
    requires Enabled(s, step)
  {
    match step
    case Upsert(p) => s.(tables := Upserted(s.tables, p))
    case Scan(now, batch) => s.(clock := now, queue := s.queue + batch)
    case Check(now) =>
      var (time, key) := s.queue[0];
      s.(tables := Checked(s.tables, time, key, Cutoff(now, s.eviction)),
         clock := now, queue := s.queue[1..])
  }

  function Next(s: State, step: Step): (r: Option<State>) {
    if Enabled(s, step) then Some(Apply(s, step)) else None
  }

  ghost predicate Inv(s: State) {
    && Indexed(s.tables) && NoStrayEntries(s.tables, Cutoff(s.clock, s.eviction))
    && forall e | e in s.queue :: e.0 < Cutoff(s.clock, s.eviction)
  }

  /** What was stored and has not expired is stored, or something at least as recent is. */
  ghost predicate NothingFreshIsLost(s: State, s': State) {
    && s.clock <= s'.clock && s.eviction == s'.eviction
    && forall k | k in s.tables.packets ::
         s.tables.packets[k].stamp.timestamp + s.eviction >= s'.clock ==>
           k in s'.tables.packets
           && !MoreRecent(s.tables.packets[k].stamp, s'.tables.packets[k].stamp)
  }

  lemma StepKeepsInv(s: State, step: Step)
    requires Inv(s) && Enabled(s, step)
    ensures Inv(Apply(s, step)) && NothingFreshIsLost(s, Apply(s, step))
  {
    var cutoff := Cutoff(s.clock, s.eviction);
    forall k | k in s.tables.packets
      ensures !MoreRecent(s.tables.packets[k].stamp, s.tables.packets[k].stamp)
    {
      var a := s.tables.packets[k].stamp;
      RecencyIsStrictTotalOrder(a, a, a);
    }
    match step {
      case Upsert(p) =>
        UpsertKeepsTables(s.tables, p, cutoff);
      case Scan(_, _) =>
      case Check(now) =>
        assert s.queue[0] in s.queue;
        CheckKeepsTables(s.tables, s.queue[0].0, s.queue[0].1, cutoff, Cutoff(now, s.eviction));
    }
  }

  lemma NothingFreshIsLostTransitive(s: State, t: State, u: State)
    requires NothingFreshIsLost(s, t) && NothingFreshIsLost(t, u)
    ensures NothingFreshIsLost(s, u)
  {
    forall k | k in s.tables.packets
               && s.tables.packets[k].stamp.timestamp + s.eviction >= u.clock
      ensures k in u.tables.packets
              && !MoreRecent(s.tables.packets[k].stamp, u.tables.packets[k].stamp)
    {
      var a, b := s.tables.packets[k].stamp, t.tables.packets[k].stamp;
      RecencyIsStrictTotalOrder(a, b, b);
      assert b.timestamp >= a.timestamp;
      var c := u.tables.packets[k].stamp;
      RecencyIsStrictTotalOrder(b, a, c);
      RecencyIsStrictTotalOrder(c, b, a);
      RecencyIsStrictTotalOrder(a, c, b);
    }
  }

  lemma NothingFreshIsLostReflexive(s: State)
    ensures NothingFreshIsLost(s, s)
  {
    forall k | k in s.tables.packets
      ensures !MoreRecent(s.tables.packets[k].stamp, s.tables.packets[k].stamp)
    {
      var a := s.tables.packets[k].stamp;
      RecencyIsStrictTotalOrder(a, a, a);
    }
  }

  /**
   * In every run every packet stays indexed, so the eviction task will find it; index entries
   * that belong to no packet have expired, so it will find those too; and a packet that has
   * not expired is only ever replaced by one at least as recent.
   */
  lemma EveryRun(s: State, steps: seq<Step>, s': State)
    requires Inv(s) && After(Next, s, steps) == Some(s')
    ensures Inv(s') && NothingFreshIsLost(s, s')
  {
    forall t, step | Inv(t) && Next(t, step).Some?
      ensures Inv(Next(t, step).value) && NothingFreshIsLost(t, Next(t, step).value)
    {
      StepKeepsInv(t, step);
    }
    forall t: State ensures NothingFreshIsLost(t, t) {
      NothingFreshIsLostReflexive(t);
    }
    forall t, u, v: State | NothingFreshIsLost(t, u) && NothingFreshIsLost(u, v)
      ensures NothingFreshIsLost(t, v)
    {
      NothingFreshIsLostTransitive(t, u, v);
    }
    Holds(Next, Inv, NothingFreshIsLost, s, steps);
  }

  // Completeness of eviction ----------------------------------------------------------------

  function CountChecks(steps: seq<Step>): (n: nat)
    decreases |steps|
  {
    if steps == [] then 0
    else CountChecks(steps[..|steps| - 1]) + (if steps[|steps| - 1].Check? then 1 else 0)
  }

  /** How many of `m` queued checks are left after these steps. */
  function ChecksLeft(m: nat, steps: seq<Step>): (n: nat) {
    if CountChecks(steps) >= m then 0 else m - CountChecks(steps)
  }

  function EntryOf(p: Packet): (e: (u64, Key)) {
    (p.stamp.timestamp, p.key)
  }

  ghost predicate EntryAdded(steps: seq<Step>, e: (u64, Key)) {
    exists i | 0 <= i < |steps| :: steps[i].Upsert? && EntryOf(steps[i].p) == e
  }

  /** Steps leave the first `n` queued checks where they are, but for a check, which does one. */
  lemma QueueAfter(s: State, step: Step, n: nat)
    requires Enabled(s, step) && n <= |s.queue|
    ensures !step.Check? ==> n <= |Apply(s, step).queue| && Apply(s, step).queue[..n] == s.queue[..n]
    ensures step.Check? && n > 0 ==>
      && n - 1 <= |Apply(s, step).queue|
      && s.queue[..n] == [s.queue[0]] + Apply(s, step).queue[..n - 1]
  {}

  /** An index entry that was to be checked is gone, or was added since, or is to be checked. */
  lemma {:induction false} EntryGetsChecked(
    s: State, steps: seq<Step>, s': State, m: nat, e: (u64, Key))
    requires After(Next, s, steps) == Some(s') && m <= |s.queue|
    requires e in s.tables.index ==> e in s.queue[..m]
    ensures ChecksLeft(m, steps) <= |s'.queue|
    ensures e in s'.tables.index ==>
      EntryAdded(steps, e) || e in s'.queue[..ChecksLeft(m, steps)]
    decreases |steps|
  {
    if steps != [] {
      var init, last := steps[..|steps| - 1], steps[|steps| - 1];
      var t := LastStep(Next, s, steps);
      EntryGetsChecked(s, init, t, m, e);
      QueueAfter(t, last, ChecksLeft(m, init));
      if EntryAdded(init, e) {
        var i :| 0 <= i < |init| && init[i].Upsert? && EntryOf(init[i].p) == e;
        assert steps[i] == init[i];
      }
      if last.Upsert? && EntryOf(last.p) == e {
        assert steps[|steps| - 1].Upsert?;
      }
    }
  }

  lemma PacketAfterStep(s: State, step: Step, n: nat, cutoff: nat, k: Key)
    requires Inv(s) && Enabled(s, step) && n <= |s.queue| && cutoff <= Cutoff(s.clock, s.eviction)
    requires k in Apply(s, step).tables.packets
    requires Apply(s, step).tables.packets[k].stamp.timestamp < cutoff
    ensures var p, queue := Apply(s, step).tables.packets[k], Apply(s, step).queue;
      || step == Upsert(p)
      || (&& k in s.tables.packets && s.tables.packets[k] == p
          && (EntryOf(p) in s.queue[..n] ==>
                if step.Check? then n > 0 && n - 1 <= |queue| && EntryOf(p) in queue[..n - 1]
                else n <= |queue| && EntryOf(p) in queue[..n]))
  {
    QueueAfter(s, step, n);
  }

  /** So is a packet that has expired by `cutoff`. */
  lemma {:induction false} PacketGetsChecked(
    s: State, steps: seq<Step>, s': State, m: nat, cutoff: nat, k: Key)
    requires Inv(s) && After(Next, s, steps) == Some(s') && m <= |s.queue|
    requires cutoff <= Cutoff(s.clock, s.eviction)
    requires k in s.tables.packets && s.tables.packets[k].stamp.timestamp < cutoff ==>
      EntryOf(s.tables.packets[k]) in s.queue[..m]
    ensures ChecksLeft(m, steps) <= |s'.queue|
    ensures k in s'.tables.packets && s'.tables.packets[k].stamp.timestamp < cutoff ==>
      var p := s'.tables.packets[k];
      Upsert(p) in steps || EntryOf(p) in s'.queue[..ChecksLeft(m, steps)]
    decreases |steps|
  {
    if steps != [] {
      var init, last := steps[..|steps| - 1], steps[|steps| - 1];
      var t := LastStep(Next, s, steps);
      PacketGetsChecked(s, init, t, m, cutoff, k);
      EveryRun(s, init, t);
      QueueAfter(t, last, ChecksLeft(m, init));
      if k in s'.tables.packets && s'.tables.packets[k].stamp.timestamp < cutoff {
        PacketAfterStep(t, last, ChecksLeft(m, init), cutoff, k);
      }
      assert steps == init + [last];
    }
  }

  /**
   * A scan of the whole index is thorough. Once the checks queued with it are done, whatever
   * came in between, nothing is left that had expired at the scan, unless it was published
   * since: no packet and no index entry.
   */
  lemma ScanIsThorough(s: State, now: u64, batch: seq<(u64, Key)>, steps: seq<Step>, s': State)
    requires Inv(s) && Enabled(s, Scan(now, batch))
    requires forall e | e in s.tables.index && e.0 + s.eviction < now :: e in batch
    requires After(Next, Apply(s, Scan(now, batch)), steps) == Some(s')
    requires CountChecks(steps) >= |s.queue| + |batch|
    ensures forall k | k in s'.tables.packets ::
      s'.tables.packets[k].stamp.timestamp + s.eviction >= now
      || Upsert(s'.tables.packets[k]) in steps
    ensures forall e | e in s'.tables.index ::
      e.0 + s.eviction >= now || EntryAdded(steps, e)
  {
    var t := Apply(s, Scan(now, batch));
    StepKeepsInv(s, Scan(now, batch));
    var cutoff, m := Cutoff(now, s.eviction), |t.queue|;
    assert t.queue[..m] == t.queue;
    forall k | k in s'.tables.packets
      ensures s'.tables.packets[k].stamp.timestamp >= cutoff
              || Upsert(s'.tables.packets[k]) in steps
    {
      PacketGetsChecked(t, steps, s', m, cutoff, k);
    }
    forall e | e in s'.tables.index ensures e.0 >= cutoff || EntryAdded(steps, e) {
      if e.0 < cutoff { EntryGetsChecked(t, steps, s', m, e); }
    }
  }

  // Convergence -----------------------------------------------------------------------------

  function UpsertAll(t: Tables, ps: seq<Packet>): (t': Tables)
    decreases |ps|
  {
    if ps == [] then t else Upserted(UpsertAll(t, ps[..|ps| - 1]), ps[|ps| - 1])
  }

  ghost predicate Published(ps: seq<Packet>, k: Key, stamp: Stamp) {
    exists i | 0 <= i < |ps| :: ps[i].key == k && ps[i].stamp == stamp
  }

  /** After any publications a key holds the most recent packet published for it. */
  lemma {:induction false} NewestWins(ps: seq<Packet>, k: Key)
    ensures var packets := UpsertAll(EMPTY, ps).packets;
      && (k in packets <==> exists i | 0 <= i < |ps| :: ps[i].key == k)
      && (k in packets ==> Published(ps, k, packets[k].stamp))
      && (k in packets ==> forall i | 0 <= i < |ps| ::
            ps[i].key == k ==> !MoreRecent(ps[i].stamp, packets[k].stamp))
    decreases |ps|
  {
    if ps != [] {
      var init, p := ps[..|ps| - 1], ps[|ps| - 1];
      NewestWins(init, k);
      var before, after := UpsertAll(EMPTY, init).packets, UpsertAll(EMPTY, ps).packets;
      assert forall i | 0 <= i < |init| :: init[i] == ps[i];
      if p.key == k {
        RecencyIsStrictTotalOrder(p.stamp, p.stamp, p.stamp);
        if k in before {
          RecencyIsStrictTotalOrder(before[k].stamp, p.stamp, p.stamp);
          forall i | 0 <= i < |init| && init[i].key == k
            ensures !MoreRecent(init[i].stamp, after[k].stamp)
          {
            RecencyIsStrictTotalOrder(init[i].stamp, p.stamp, before[k].stamp);
            RecencyIsStrictTotalOrder(p.stamp, before[k].stamp, before[k].stamp);
          }
        }
        assert ps[|ps| - 1].key == k;
      }
    }
  }

  /**
   * Stores that were given the same packets, in whatever order and however often, hold the
   * same timestamp and payload for every key.
   */
  lemma Convergence(ps: seq<Packet>, qs: seq<Packet>, k: Key)
    requires forall stamp :: Published(ps, k, stamp) <==> Published(qs, k, stamp)
    ensures var a, b := UpsertAll(EMPTY, ps).packets, UpsertAll(EMPTY, qs).packets;
      (k in a <==> k in b) && (k in a ==> a[k].stamp == b[k].stamp)
  {
    NewestWins(ps, k);
    NewestWins(qs, k);
    var a, b := UpsertAll(EMPTY, ps).packets, UpsertAll(EMPTY, qs).packets;
    assert k in a ==> Published(qs, k, a[k].stamp);
    assert k in b ==> Published(ps, k, b[k].stamp);
    if k in a && k in b {
      RecencyIsStrictTotalOrder(a[k].stamp, b[k].stamp, a[k].stamp);
    }
  }
}
