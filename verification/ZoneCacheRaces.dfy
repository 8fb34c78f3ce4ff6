/**
 * The zone store with overlapping calls. A query takes up to three separately locked phases:
 * ask the cache, read the store, fill the cache. A publication takes two: upsert, then remove
 * the key from the caches. Any number of calls interleave phase by phase.
 */
module ZoneCacheRaces {
  import opened Wrappers
  import opened Runs
  import opened Pkarr
  import opened ZoneRecords
  import opened ZoneCache
  import PacketStore

  datatype Query = Query(key: Key, name: Name, rtype: RecordType)

  /** `found` says that the query came upon a packet, in a cache, the store or the DHT. */
  datatype Call =
    | Missed(q: Query)
    | Read(q: Query, p: Packet)
    | NotStored(q: Query)
    | Answered(q: Query, a: Answer, found: bool)
    | Removing(key: Key)
    | Published(key: Key, updated: bool)

  /**
   * `ever` is the set of packets the store has held, `expired` the keys it has dropped a
   * packet for, and `fetched` the packets the DHT has returned.
   */
  datatype State = State(
    wire: Wire, caches: Caches, packets: map<Key, Packet>, calls: map<nat, Call>,
    ever: set<Packet>, expired: set<Key>, fetched: set<Packet>)

  datatype Step =
    | AskCache(c: nat, q: Query)
    | ReadStore(c: nat)
    | Fill(c: nat)
    | FillDht(c: nat, p: Packet)
    | GiveUp(c: nat)
    | Upsert(c: nat, p: Packet)
    | Remove(c: nat)
    | DropLru(k: Key)
    | DropDht(k: Key)
    | Expire(k: Key)

  function Init(wire: Wire): (s: State) {
    State(wire, Caches(map[], map[]), map[], map[], {}, {}, {})
  }

  predicate Enabled(s: State, step: Step) {
    match step
    case AskCache(c, _) => c !in s.calls
    case ReadStore(c) => c in s.calls && s.calls[c].Missed?
    case Fill(c) => c in s.calls && s.calls[c].Read?
    case FillDht(c, p) => c in s.calls && s.calls[c].NotStored? && p.key == s.calls[c].q.key
    case GiveUp(c) => c in s.calls && s.calls[c].NotStored?
    case Upsert(c, _) => c !in s.calls
    case Remove(c) => c in s.calls && s.calls[c].Removing?
    case DropLru(_) => true
    case DropDht(_) => true
    case Expire(k) => k in s.packets
  }

  function Apply(s: State, step: Step): (s': State)
    requires Enabled(s, step)
  {
    match step
    case AskCache(c, q) =>
      var hit := CacheAnswer(s.caches, q.key, q.name, q.rtype);
      s.(calls := s.calls[c := if hit.Some? then Answered(q, Ok(hit), true) else Missed(q)])
    case ReadStore(c) =>
      var q := s.calls[c].q;
      s.(calls := s.calls[c := if q.key in s.packets then Read(q, s.packets[q.key])
                               else NotStored(q)])
    case Fill(c) =>
      var q, p := s.calls[c].q, s.calls[c].p;
      s.(caches := Filled(s.caches, s.wire, p),
         calls := s.calls[c := Answered(q, FillAnswer(s.caches, s.wire, p, q.name, q.rtype), true)])
    case FillDht(c, p) =>
      var q := s.calls[c].q;
      s.(caches := FilledDht(s.caches, s.wire, p), fetched := s.fetched + {p},
         calls := s.calls[c := Answered(q, PacketAnswer(s.wire, p, q.name, q.rtype), true)])
    case GiveUp(c) => s.(calls := s.calls[c := Answered(s.calls[c].q, Ok(None), false)])
    case Upsert(c, p) =>
      if PacketStore.Superseded(s.packets, p) then s.(calls := s.calls[c := Published(p.key, false)])
      else
        s.(packets := s.packets[p.key := p], ever := s.ever + {p},
           calls := s.calls[c := Removing(p.key)])
    case Remove(c) =>
      var k := s.calls[c].key;
      s.(caches := Removed(s.caches, k), calls := s.calls[c := Published(k, true)])
    case DropLru(k) => s.(caches := s.caches.(lru := s.caches.lru - {k}))
    case DropDht(k) => s.(caches := s.caches.(dht := s.caches.dht - {k}))
    case Expire(k) => s.(packets := s.packets - {k}, expired := s.expired + {k})
  }

  function Next(s: State, step: Step): (r: Option<State>) {
    if Enabled(s, step) then Some(Apply(s, step)) else None
  }

  // Invariant -------------------------------------------------------------------------------

  /** The zone of one of these packets that has the key. */
  ghost predicate ZoneFrom(wire: Wire, packets: set<Packet>, k: Key, zone: CachedZone) {
    exists p | p in packets :: p.key == k && ZoneOfPacket(wire, p) == Some(zone)
  }

  /** The answer that one of these packets gives to the query. */
  ghost predicate AnswerFrom(wire: Wire, packets: set<Packet>, q: Query, a: Answer) {
    exists p | p in packets :: p.key == q.key && PacketAnswer(wire, p, q.name, q.rtype) == a
  }

  /** As long as no packet of the key has expired, the store holds its newest packet. */
  ghost predicate HoldsNewest(s: State, k: Key) {
    k !in s.expired ==>
      forall p | p in s.ever && p.key == k ::
        k in s.packets && !MoreRecent(p.stamp, s.packets[k].stamp)
  }

  ghost predicate CallOk(s: State, call: Call) {
    match call
    case Read(q, p) => p in s.ever && p.key == q.key
    case Answered(q, a, found) =>
      if found then AnswerFrom(s.wire, s.ever + s.fetched, q, a) else a == Ok(None)
    case _ => true
  }

  ghost predicate Inv(s: State) {
    && (forall k | k in s.packets :: s.packets[k].key == k && s.packets[k] in s.ever)
    && (forall k :: HoldsNewest(s, k))
    && (forall k | k in s.caches.lru :: ZoneFrom(s.wire, s.ever, k, s.caches.lru[k]))
    && (forall k | k in s.caches.dht :: ZoneFrom(s.wire, s.fetched, k, s.caches.dht[k]))
    && forall c | c in s.calls :: CallOk(s, s.calls[c])
  }

  ghost predicate Grows(s: State, s': State) {
    && s.wire == s'.wire && s.ever <= s'.ever && s.expired <= s'.expired
    && s.fetched <= s'.fetched
  }

  lemma ZoneFromMore(wire: Wire, ps: set<Packet>, qs: set<Packet>, k: Key, zone: CachedZone)
    requires ps <= qs && ZoneFrom(wire, ps, k, zone)
    ensures ZoneFrom(wire, qs, k, zone)
  {
    var p :| p in ps && p.key == k && ZoneOfPacket(wire, p) == Some(zone);
    assert p in qs;
  }

  lemma AnswerFromMore(wire: Wire, ps: set<Packet>, qs: set<Packet>, q: Query, a: Answer)
    requires ps <= qs && AnswerFrom(wire, ps, q, a)
    ensures AnswerFrom(wire, qs, q, a)
  {
    var p :| p in ps && p.key == q.key && PacketAnswer(wire, p, q.name, q.rtype) == a;
    assert p in qs;
  }

  lemma AnswerFromZone(wire: Wire, ps: set<Packet>, q: Query, zone: CachedZone)
    requires ZoneFrom(wire, ps, q.key, zone)
    ensures AnswerFrom(wire, ps, q, Ok(Lookup(zone.records, q.name, q.rtype)))
  {
    var p :| p in ps && p.key == q.key && ZoneOfPacket(wire, p) == Some(zone);
    assert PacketAnswer(wire, p, q.name, q.rtype) == Ok(Lookup(zone.records, q.name, q.rtype));
  }

  /** Either cache answers with what some packet says. */
  lemma CacheAnswersFromPackets(s: State, q: Query)
    requires Inv(s)
    ensures q.key in s.caches.lru || q.key in s.caches.dht ==>
      AnswerFrom(s.wire, s.ever + s.fetched, q, Ok(CacheAnswer(s.caches, q.key, q.name, q.rtype)))
  {
    var both := s.ever + s.fetched;
    if q.key in s.caches.lru {
      ZoneFromMore(s.wire, s.ever, both, q.key, s.caches.lru[q.key]);
      AnswerFromZone(s.wire, both, q, s.caches.lru[q.key]);
    } else if q.key in s.caches.dht {
      ZoneFromMore(s.wire, s.fetched, both, q.key, s.caches.dht[q.key]);
      AnswerFromZone(s.wire, both, q, s.caches.dht[q.key]);
    }
  }

  lemma FillAnswersFromPackets(s: State, c: nat)
    requires Inv(s) && Enabled(s, Fill(c))
    ensures var q, p := s.calls[c].q, s.calls[c].p;
      AnswerFrom(s.wire, s.ever + s.fetched, q, FillAnswer(s.caches, s.wire, p, q.name, q.rtype))
  {
    var q, p := s.calls[c].q, s.calls[c].p;
    assert CallOk(s, s.calls[c]);
    if CachedIsNewer(s.caches, p) {
      CacheAnswersFromPackets(s, q);
    } else {
      assert FillAnswer(s.caches, s.wire, p, q.name, q.rtype)
          == PacketAnswer(s.wire, p, q.name, q.rtype);
      assert p in s.ever + s.fetched;
    }
  }

  lemma UpsertHoldsNewest(s: State, c: nat, p: Packet, k: Key)
    requires Inv(s) && Enabled(s, Upsert(c, p))
    ensures HoldsNewest(Apply(s, Upsert(c, p)), k)
  {
    var s' := Apply(s, Upsert(c, p));
    assert HoldsNewest(s, k);
    if k !in s.expired && k == p.key && !PacketStore.Superseded(s.packets, p) {
      forall x | x in s'.ever && x.key == k ensures !MoreRecent(x.stamp, p.stamp) {
        RecencyIsStrictTotalOrder(p.stamp, p.stamp, p.stamp);
        if x != p {
          RecencyIsStrictTotalOrder(x.stamp, p.stamp, s.packets[k].stamp);
          RecencyIsStrictTotalOrder(p.stamp, s.packets[k].stamp, x.stamp);
        }
      }
    }
  }

  lemma StepKeepsLru(s: State, step: Step, k: Key)
    requires Inv(s) && Enabled(s, step) && k in Apply(s, step).caches.lru
    ensures ZoneFrom(s.wire, Apply(s, step).ever, k, Apply(s, step).caches.lru[k])
  {
    if step.Fill? && s.calls[step.c].p.key == k && !CachedIsNewer(s.caches, s.calls[step.c].p) {
      assert CallOk(s, s.calls[step.c]);
    } else {
      ZoneFromMore(s.wire, s.ever, Apply(s, step).ever, k, s.caches.lru[k]);
    }
  }

  lemma StepKeepsDht(s: State, step: Step, k: Key)
    requires Inv(s) && Enabled(s, step) && k in Apply(s, step).caches.dht
    ensures ZoneFrom(s.wire, Apply(s, step).fetched, k, Apply(s, step).caches.dht[k])
  {
    if step.FillDht? && step.p.key == k && ZoneOfPacket(s.wire, step.p).Some? {
      assert step.p in Apply(s, step).fetched;
    } else {
      ZoneFromMore(s.wire, s.fetched, Apply(s, step).fetched, k, s.caches.dht[k]);
    }
  }

  /** The answers given before still stand, and the one given now, if any, is accounted for. */
  lemma StepKeepsCall(s: State, step: Step, c: nat)
    requires Inv(s) && Enabled(s, step) && c in Apply(s, step).calls
    ensures CallOk(Apply(s, step), Apply(s, step).calls[c])
  {
    var s' := Apply(s, step);
    var call := s'.calls[c];
    if c in s.calls && call == s.calls[c] {
      assert CallOk(s, call);
      if call.Answered? && call.found {
        AnswerFromMore(s.wire, s.ever + s.fetched, s'.ever + s'.fetched, call.q, call.a);
      }
    } else {
      NewCallIsOk(s, step);
    }
  }

  lemma NewCallIsOk(s: State, step: Step)
    requires Inv(s) && Enabled(s, step)
    requires !step.DropLru? && !step.DropDht? && !step.Expire?
    ensures CallOk(Apply(s, step), Apply(s, step).calls[step.c])
  {
    match step {
      case AskCache(c, q) => CacheAnswersFromPackets(s, q);
      case Fill(c) => FillAnswersFromPackets(s, c);
      case FillDht(c, p) => assert p in s.ever + (s.fetched + {p});
      case _ =>
    }
  }

  lemma StepKeepsInv(s: State, step: Step)
    requires Inv(s) && Enabled(s, step)
    ensures Inv(Apply(s, step)) && Grows(s, Apply(s, step))
  {
    var s' := Apply(s, step);
    forall k ensures HoldsNewest(s', k) {
      assert HoldsNewest(s, k);
      if step.Upsert? { UpsertHoldsNewest(s, step.c, step.p, k); }
    }
    forall k | k in s'.caches.lru ensures ZoneFrom(s'.wire, s'.ever, k, s'.caches.lru[k]) {
      StepKeepsLru(s, step, k);
    }
    forall k | k in s'.caches.dht ensures ZoneFrom(s'.wire, s'.fetched, k, s'.caches.dht[k]) {
      StepKeepsDht(s, step, k);
    }
    forall c | c in s'.calls ensures CallOk(s', s'.calls[c]) {
      StepKeepsCall(s, step, c);
    }
  }

  lemma RunKeepsInv(s: State, steps: seq<Step>, s': State)
    requires Inv(s) && After(Next, s, steps) == Some(s')
    ensures Inv(s') && Grows(s, s')
  {
    forall t, step | Inv(t) && Next(t, step).Some?
      ensures Inv(Next(t, step).value) && Grows(t, Next(t, step).value)
    {
      StepKeepsInv(t, step);
    }
    Holds(Next, Inv, Grows, s, steps);
  }

  // What every run promises -----------------------------------------------------------------

  /**
   * Whatever overlaps, a cached zone is that of a packet the store has held for the key, and
   * as long as no packet of the key has expired it is not newer than the stored one.
   */
  lemma CachedZonesComeFromTheStore(wire: Wire, steps: seq<Step>, s: State, k: Key)
    requires After(Next, Init(wire), steps) == Some(s) && k in s.caches.lru
    ensures ZoneFrom(wire, s.ever, k, s.caches.lru[k])
    ensures k !in s.expired ==>
      k in s.packets && s.caches.lru[k].timestamp <= s.packets[k].stamp.timestamp
  {
    RunKeepsInv(Init(wire), steps, s);
    assert HoldsNewest(s, k);
  }

  /**
   * Whatever overlaps, a query is answered as some packet alone would answer it, one that the
   * store has held for the key or the DHT has returned for it. If neither had one, it is
   * answered with nothing.
   */
  lemma AnswersComeFromPackets(wire: Wire, steps: seq<Step>, s: State, c: nat)
    requires After(Next, Init(wire), steps) == Some(s) && c in s.calls && s.calls[c].Answered?
    ensures if s.calls[c].found
            then AnswerFrom(wire, s.ever + s.fetched, s.calls[c].q, s.calls[c].a)
            else s.calls[c].a == Ok(None)
  {
    RunKeepsInv(Init(wire), steps, s);
    assert CallOk(s, s.calls[c]);
  }

  /** The key is in the cache all along. */
  ghost predicate StaysCached(s: State, steps: seq<Step>, k: Key)
    decreases |steps|
  {
    && k in s.caches.lru
    && (steps != [] && Enabled(s, steps[0]) ==> StaysCached(Apply(s, steps[0]), steps[1..], k))
  }

  /** As long as a key stays cached, the time of its zone does not go back. */
  lemma {:induction false} CachedTimesNeverGoBack(s: State, steps: seq<Step>, s': State, k: Key)
    requires After(Next, s, steps) == Some(s') && StaysCached(s, steps, k)
    requires Inv(s)
    ensures k in s'.caches.lru && s.caches.lru[k].timestamp <= s'.caches.lru[k].timestamp
    decreases |steps|
  {
    if steps != [] {
      CachedTimeAfterStep(s, steps[0], k);
      StepKeepsInv(s, steps[0]);
      CachedTimesNeverGoBack(Apply(s, steps[0]), steps[1..], s', k);
    }
  }

  lemma CachedTimeAfterStep(s: State, step: Step, k: Key)
    requires Inv(s) && Enabled(s, step)
    requires k in s.caches.lru && k in Apply(s, step).caches.lru
    ensures s.caches.lru[k].timestamp <= Apply(s, step).caches.lru[k].timestamp
  {
    if step.Fill? { assert CallOk(s, s.calls[step.c]); }
  }

  // Staleness -------------------------------------------------------------------------------

  ghost predicate RemovalDue(s: State, k: Key) {
    exists c | c in s.calls :: s.calls[c] == Removing(k)
  }

  /** The cached zone, if any, is that of the stored packet, or is about to be removed. */
  ghost predicate Fresh(s: State, k: Key) {
    k in s.caches.lru ==>
      || (k in s.packets && ZoneOfPacket(s.wire, s.packets[k]) == Some(s.caches.lru[k]))
      || RemovalDue(s, k)
  }

  /** The DHT cache holds the key only if it is not stored, or is about to be removed. */
  ghost predicate DhtFresh(s: State, k: Key) {
    k in s.caches.dht ==> k !in s.packets || RemovalDue(s, k)
  }

  /** The packet is not stored any more, or another one is that makes a different zone. */
  predicate Outdated(s: State, p: Packet) {
    p.key !in s.packets || ZoneOfPacket(s.wire, s.packets[p.key]) != ZoneOfPacket(s.wire, p)
  }

  /** A query puts into the cache what the store no longer holds, and nothing will remove it. */
  ghost predicate FillsOutdated(s: State, step: Step, k: Key)
    requires Enabled(s, step)
  {
    step.Fill? &&
      var p := s.calls[step.c].p;
      && p.key == k && Outdated(s, p) && ZoneOfPacket(s.wire, p).Some?
      && !CachedIsNewer(s.caches, p) && !RemovalDue(s, k)
  }

  /** A packet expires in the store while its zone is cached, and nothing will remove it. */
  ghost predicate ExpiresCached(s: State, step: Step, k: Key) {
    step == Expire(k) && k in s.caches.lru && !RemovalDue(s, k)
  }

  /** A query puts into the DHT cache what is stored by now, and nothing will remove it. */
  ghost predicate FillsShadow(s: State, step: Step, k: Key) {
    step.FillDht? && step.p.key == k && ZoneOfPacket(s.wire, step.p).Some?
    && k in s.packets && !RemovalDue(s, k)
  }

  /** A removal falls due with a publication of the key, and goes with a removal of it. */
  lemma RemovalSteps(s: State, step: Step, k: Key)
    requires Enabled(s, step)
    ensures RemovalDue(s, k) && !(step.Remove? && s.calls[step.c].key == k) ==>
      RemovalDue(Apply(s, step), k)
    ensures RemovalDue(Apply(s, step), k) ==>
      RemovalDue(s, k) || (step.Upsert? && step.p.key == k)
    ensures step.Upsert? && step.p.key == k && !PacketStore.Superseded(s.packets, step.p) ==>
      RemovalDue(Apply(s, step), k)
  {
    var s' := Apply(s, step);
    if RemovalDue(s, k) && !(step.Remove? && s.calls[step.c].key == k) {
      var c :| c in s.calls && s.calls[c] == Removing(k);
      assert s'.calls[c] == Removing(k);
    }
    if RemovalDue(s', k) && !(step.Upsert? && step.p.key == k) {
      var c :| c in s'.calls && s'.calls[c] == Removing(k);
      assert c in s.calls && s.calls[c] == Removing(k);
    }
    if step.Upsert? && step.p.key == k && !PacketStore.Superseded(s.packets, step.p) {
      assert s'.calls[step.c] == Removing(k);
    }
  }

  /**
   * The cache and the store come apart in two ways only, and then always: a query fills in a
   * packet that has been replaced since it read it, when the publication that replaced it has
   * already cleared the cache; or the packet expires in the store.
   */
  lemma StalenessExactly(s: State, step: Step, k: Key)
    requires Inv(s) && Enabled(s, step) && Fresh(s, k)
    ensures !Fresh(Apply(s, step), k) <==> FillsOutdated(s, step, k) || ExpiresCached(s, step, k)
  {
    RemovalSteps(s, step, k);
    if step.Fill? {
      FillStaleness(s, step.c, k);
    }
  }

  lemma FillStaleness(s: State, c: nat, k: Key)
    requires Inv(s) && Enabled(s, Fill(c)) && Fresh(s, k)
    ensures !Fresh(Apply(s, Fill(c)), k) <==> FillsOutdated(s, Fill(c), k)
  {
    assert CallOk(s, s.calls[c]);
    RemovalSteps(s, Fill(c), k);
  }

  /** The DHT cache comes to hold a stored key in one way only, and then always. */
  lemma ShadowingExactly(s: State, step: Step, k: Key)
    requires Enabled(s, step) && DhtFresh(s, k)
    ensures !DhtFresh(Apply(s, step), k) <==> FillsShadow(s, step, k)
  {
    RemovalSteps(s, step, k);
  }

  /** Unless a packet of the key has expired, an outdated packet is one that was replaced. */
  lemma OutdatedMeansReplaced(s: State, p: Packet)
    requires Inv(s) && p in s.ever && p.key !in s.expired
    ensures p.key in s.packets
    ensures Outdated(s, p) ==> MoreRecent(s.packets[p.key].stamp, p.stamp)
    ensures s.packets[p.key].stamp.timestamp > p.stamp.timestamp && ZoneOfPacket(s.wire, p).Some?
            ==> Outdated(s, p)
  {
    assert HoldsNewest(s, p.key);
    RecencyIsStrictTotalOrder(p.stamp, s.packets[p.key].stamp, p.stamp);
  }

  ghost predicate Agrees(s: State, k: Key) {
    Fresh(s, k) && DhtFresh(s, k)
  }

  ghost predicate ComesApart(s: State, step: Step, k: Key)
    requires Enabled(s, step)
  {
    FillsOutdated(s, step, k) || ExpiresCached(s, step, k) || FillsShadow(s, step, k)
  }

  ghost predicate AlwaysAgrees(s: State, steps: seq<Step>, k: Key)
    decreases |steps|
  {
    && Agrees(s, k)
    && (steps != [] && Enabled(s, steps[0]) ==> AlwaysAgrees(Apply(s, steps[0]), steps[1..], k))
  }

  ghost predicate NeverComesApart(s: State, steps: seq<Step>, k: Key)
    decreases |steps|
  {
    steps != [] && Enabled(s, steps[0]) ==>
      !ComesApart(s, steps[0], k) && NeverComesApart(Apply(s, steps[0]), steps[1..], k)
  }

  lemma {:induction false} AgreesExactly(s: State, steps: seq<Step>, k: Key)
    requires Inv(s) && Agrees(s, k) && After(Next, s, steps).Some?
    ensures AlwaysAgrees(s, steps, k) <==> NeverComesApart(s, steps, k)
    decreases |steps|
  {
    if steps != [] {
      StalenessExactly(s, steps[0], k);
      ShadowingExactly(s, steps[0], k);
      StepKeepsInv(s, steps[0]);
      if Agrees(Apply(s, steps[0]), k) {
        AgreesExactly(Apply(s, steps[0]), steps[1..], k);
      }
    }
  }

  /** So in a whole run caches and store agree on a key throughout exactly if no such step occurs. */
  lemma RunsAgreeExactly(wire: Wire, steps: seq<Step>, k: Key)
    requires After(Next, Init(wire), steps).Some?
    ensures AlwaysAgrees(Init(wire), steps, k) <==> NeverComesApart(Init(wire), steps, k)
  {
    AgreesExactly(Init(wire), steps, k);
  }

  // Runs in which they come apart -----------------------------------------------------------

  lemma Take(s0: State, steps: seq<Step>, s: State, step: Step)
    returns (steps': seq<Step>, s': State)
    requires After(Next, s0, steps) == Some(s) && Enabled(s, step)
    ensures s' == Apply(s, step) && After(Next, s0, steps') == Some(s')
  {
    steps', s' := steps + [step], Apply(s, step);
    Extend(Next, s0, steps, s, step);
  }

  /** A whole publication with nothing in between. */
  lemma PublishRun(s0: State, steps: seq<Step>, s: State, c: nat, p: Packet)
    returns (steps': seq<Step>, s': State)
    requires After(Next, s0, steps) == Some(s)
    requires c !in s.calls && !PacketStore.Superseded(s.packets, p)
    ensures After(Next, s0, steps') == Some(s')
    ensures s' == s.(packets := s.packets[p.key := p], ever := s.ever + {p},
                     caches := Removed(s.caches, p.key),
                     calls := s.calls[c := Published(p.key, true)])
  {
    steps', s' := Take(s0, steps, s, Upsert(c, p));
    steps', s' := Take(s0, steps', s', Remove(c));
    assert s'.calls == s.calls[c := Published(p.key, true)];
  }

  /**
   * It does happen: read, replace, clear, fill. All calls are done, nothing has expired, and
   * the cache keeps the replaced zone.
   */
  lemma StaleRun(wire: Wire, p: Packet, q: Packet, name: Name, rtype: RecordType)
    returns (steps: seq<Step>, s: State)
    requires p.key == q.key && p.stamp.timestamp < q.stamp.timestamp
    requires ZoneOfPacket(wire, p).Some? && ZoneOfPacket(wire, q).Some?
    ensures After(Next, Init(wire), steps) == Some(s) && s.expired == {}
    ensures forall c | c in s.calls :: s.calls[c].Answered? || s.calls[c].Published?
    ensures p.key in s.packets && s.packets[p.key] == q && p.key in s.caches.lru
    ensures s.caches.lru[p.key] == ZoneOfPacket(wire, p).value != ZoneOfPacket(wire, q).value
  {
    var s0 := Init(wire);
    steps, s := PublishRun(s0, [], s0, 0, p);
    steps, s := Take(s0, steps, s, AskCache(1, Query(p.key, name, rtype)));
    steps, s := Take(s0, steps, s, ReadStore(1));
    steps, s := PublishRun(s0, steps, s, 2, q);
    steps, s := Take(s0, steps, s, Fill(1));
  }

  /**
   * The DHT cache, too, can come to hold a key that is stored: a query that found the key
   * absent fills it in after the publication. The next query is then answered from the DHT.
   */
  lemma DhtShadowsStoreRun(wire: Wire, p: Packet, dhtPacket: Packet, q: Query)
    returns (steps: seq<Step>, s: State)
    requires p.key == dhtPacket.key == q.key
    requires ZoneOfPacket(wire, dhtPacket).Some?
    requires Lookup(ZoneOfPacket(wire, dhtPacket).value.records, q.name, q.rtype).Some?
    ensures After(Next, Init(wire), steps) == Some(s) && q.key in s.packets && s.packets[q.key] == p
    ensures 2 in s.calls
    ensures s.calls[2] == Answered(q, PacketAnswer(wire, dhtPacket, q.name, q.rtype), true)
  {
    var s0 := Init(wire);
    steps, s := Take(s0, [], s0, AskCache(0, q));
    steps, s := Take(s0, steps, s, ReadStore(0));
    steps, s := PublishRun(s0, steps, s, 1, p);
    steps, s := Take(s0, steps, s, FillDht(0, dhtPacket));
    steps, s := Take(s0, steps, s, AskCache(2, q));
  }
}
