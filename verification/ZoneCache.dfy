/**
 * The zone store: a cache of decoded zones and a cache of DHT answers in front of the packet
 * store. Calls do not overlap here; `ZoneCacheRaces` has all interleavings.
 */
module ZoneCache {
  import opened Wrappers
  import opened Bytes
  import opened ZoneRecords
  import PacketStore

  type Key = PacketStore.Key
  type Packet = PacketStore.Packet

  datatype CachedZone = CachedZone(timestamp: u64, records: Zone)

  /** The DNS decoder and the z-base-32 text of a key, which are libraries. */
  datatype Wire = Wire(decode: seq<byte> -> Option<seq<Record>>, zoneLabel: Key -> Label)

  type Answer = Result<Option<RecordSet>, string>

  /** `CachedZone::from_signed_packet`: fails when the packet cannot be decoded. */
  function ZoneOfPacket(w: Wire, p: Packet): (r: Option<CachedZone>) {
    match w.decode(p.stamp.encoded)
    case None => None
    case Some(answers) =>
      Some(CachedZone(p.stamp.timestamp, ZoneOf(InZone(answers, w.zoneLabel(p.key), Everything))))
  }

  /** What a lookup in the packet alone answers. */
  function PacketAnswer(w: Wire, p: Packet, name: Name, rtype: RecordType): (a: Answer) {
    match ZoneOfPacket(w, p)
    case None => Err("cannot decode packet")
    case Some(zone) => Ok(Lookup(zone.records, name, rtype))
  }

  /** A record of the packet that a query is about: of its type, and called `name` in the zone. */
  predicate Concerns(r: Record, zone: Label, name: Name, rtype: RecordType) {
    r.rtype == rtype && LowerName(r.name) == LowerName(name + [zone])
  }

  /** A record with the data of one of them. */
  predicate IsFrom(answers: seq<Record>, zone: Label, name: Name, rtype: RecordType, r: Record) {
    exists i | 0 <= i < |answers| ::
      && Concerns(answers[i], zone, name, rtype)
      && answers[i].rtype == r.rtype && answers[i].ttl == r.ttl && answers[i].data == r.data
  }

  /**
   * What a packet answers, in terms of the records in it. There is an answer exactly when one
   * of them is called `name` in the zone of the key and has the type, which is not SOA or NS;
   * the answer holds the data of all of them, and nothing else, and nothing twice.
   */
  lemma PacketAnswerMeans(
    w: Wire, p: Packet, answers: seq<Record>, name: Name, rtype: RecordType)
    requires w.decode(p.stamp.encoded) == Some(answers)
    ensures var zone, a := w.zoneLabel(p.key), PacketAnswer(w, p, name, rtype);
      && a.Ok?
      && (a.value.Some? <==>
            && rtype != SOA && rtype != NS
            && exists i | 0 <= i < |answers| :: Concerns(answers[i], zone, name, rtype))
      && (a.value.Some? ==>
            var rs := a.value.value.records;
            && (forall i | 0 <= i < |answers| && Concerns(answers[i], zone, name, rtype) ::
                  HoldsData(rs, answers[i]))
            && (forall j | 0 <= j < |rs| :: IsFrom(answers, zone, name, rtype, rs[j]))
            && (forall i, j | 0 <= i < j < |rs| ::
                  rs[i].ttl != rs[j].ttl || rs[i].data != rs[j].data))
  {
    var zone := w.zoneLabel(p.key);
    FoundExactly(answers, zone, name, rtype);
    var found := Lookup(ZoneOf(InZone(answers, zone, Everything)), name, rtype);
    if found.Some? {
      FoundRecords(answers, zone, name, rtype, found.value.records);
    }
  }

  /** A set is found exactly if some record concerns the query, and holds the data of all. */
  lemma FoundExactly(answers: seq<Record>, zone: Label, name: Name, rtype: RecordType)
    ensures var found := Lookup(ZoneOf(InZone(answers, zone, Everything)), name, rtype);
      && (found.Some? <==>
            && rtype != SOA && rtype != NS
            && exists i | 0 <= i < |answers| :: Concerns(answers[i], zone, name, rtype))
      && (found.Some? ==>
            forall i | 0 <= i < |answers| && Concerns(answers[i], zone, name, rtype) ::
              HoldsData(found.value.records, answers[i]))
  {
    var rs := InZone(answers, zone, Everything);
    ZoneOfGroups(rs);
    forall i | 0 <= i < |answers|
      ensures Kept(answers[i], zone, Everything)
              && KeyOf(Stripped(answers[i])) == RrKey(LowerName(name), rtype)
              <==> rtype != SOA && rtype != NS && Concerns(answers[i], zone, name, rtype)
    {
      KeptExactly(answers[i], zone, name, rtype);
    }
    LookupMeansFilter(
      answers, zone, Everything, ZoneOf(rs), name, rtype, Record([], rtype, 0, []));
  }

  /** The records of a set are those of the packet that concern the query, none twice. */
  lemma FoundRecords(
    answers: seq<Record>, zone: Label, name: Name, rtype: RecordType, found: seq<Record>)
    requires var answer := Lookup(ZoneOf(InZone(answers, zone, Everything)), name, rtype);
      answer.Some? && answer.value.records == found
    ensures forall j | 0 <= j < |found| :: IsFrom(answers, zone, name, rtype, found[j])
    ensures forall i, j | 0 <= i < j < |found| ::
      found[i].ttl != found[j].ttl || found[i].data != found[j].data
  {
    var rs := InZone(answers, zone, Everything);
    ZoneOfGroups(rs);
    ZoneSetsHaveOneKey(ZoneOf(rs), rs, RrKey(LowerName(name), rtype));
    forall j | 0 <= j < |found| ensures IsFrom(answers, zone, name, rtype, found[j]) {
      LookupMeansFilter(answers, zone, Everything, ZoneOf(rs), name, rtype, found[j]);
      var i :| 0 <= i < |answers| && Kept(answers[i], zone, Everything)
               && Stripped(answers[i]) == found[j];
      KeptExactly(answers[i], zone, name, rtype);
    }
    forall i, j | 0 <= i < j < |found|
      ensures found[i].ttl != found[j].ttl || found[i].data != found[j].data
    {
      assert KeyOf(found[i]) == KeyOf(found[j]) && !Same(found[i], found[j]);
    }
  }

  lemma PacketAnswerFails(w: Wire, p: Packet, name: Name, rtype: RecordType)
    ensures PacketAnswer(w, p, name, rtype).Err? <==> w.decode(p.stamp.encoded).None?
    ensures w.decode(p.stamp.encoded).Some? ==>
      ZoneOfPacket(w, p).Some? && ZoneOfPacket(w, p).value.timestamp == p.stamp.timestamp
  {}

  // The two caches --------------------------------------------------------------------------

  datatype Caches = Caches(lru: map<Key, CachedZone>, dht: map<Key, CachedZone>)

  /** The cache is asked first, the DHT cache only for keys the cache does not hold. */
  function CacheAnswer(c: Caches, k: Key, name: Name, rtype: RecordType): (r: Option<RecordSet>) {
    if k in c.lru then Lookup(c.lru[k].records, name, rtype)
    else if k in c.dht then Lookup(c.dht[k].records, name, rtype)
    else None
  }

  predicate CachedIsNewer(c: Caches, p: Packet) {
    p.key in c.lru && c.lru[p.key].timestamp > p.stamp.timestamp
  }

  /** `ZoneCache::insert`; an undecodable packet leaves the cache as it is. */
  function Filled(c: Caches, w: Wire, p: Packet): (c': Caches) {
    var zone := ZoneOfPacket(w, p);
    if CachedIsNewer(c, p) || zone.None? then c else c.(lru := c.lru[p.key := zone.value])
  }

  function FilledDht(c: Caches, w: Wire, p: Packet): (c': Caches) {
    var zone := ZoneOfPacket(w, p);
    if zone.None? then c else c.(dht := c.dht[p.key := zone.value])
  }

  function Removed(c: Caches, k: Key): (c': Caches) {
    Caches(c.lru - {k}, c.dht - {k})
  }

  /** `ZoneCache::insert_and_resolve`. */
  function FillAnswer(c: Caches, w: Wire, p: Packet, name: Name, rtype: RecordType): (a: Answer) {
    if !CachedIsNewer(c, p) && ZoneOfPacket(w, p).None? then Err("cannot decode packet")
    else Ok(CacheAnswer(Filled(c, w, p), p.key, name, rtype))
  }

  /** Filling answers as the packet does, unless a strictly newer zone is cached. */
  lemma FillAnswerMeans(c: Caches, w: Wire, p: Packet, name: Name, rtype: RecordType)
    ensures FillAnswer(c, w, p, name, rtype)
            == if p.key in c.lru && c.lru[p.key].timestamp > p.stamp.timestamp
               then Ok(Lookup(c.lru[p.key].records, name, rtype))
               else PacketAnswer(w, p, name, rtype)
  {}

  // The store -------------------------------------------------------------------------------

  class ZoneStore {
    var lru: map<Key, CachedZone>
    var dht: map<Key, CachedZone>
    const store: PacketStore.Actor
    const wire: Wire
    /** The packet the store last held for each key; it may have expired since. */
    ghost var held: map<Key, Packet>

    ghost predicate Valid()
      reads this, store
    {
      && (forall k | k in store.packets :: k in held && held[k] == store.packets[k])
      && (forall k | k in held :: held[k].key == k)
      && (forall k | k in lru :: k in held && ZoneOfPacket(wire, held[k]) == Some(lru[k]))
      && (forall k | k in dht :: k !in store.packets)
    }

    ghost function Contents(): (c: Caches)
      reads this
    {
      Caches(lru, dht)
    }

    constructor (store: PacketStore.Actor, wire: Wire)
      requires PacketStore.Indexed(store.Contents())
      ensures Valid() && this.store == store && this.wire == wire
      ensures Contents() == Caches(map[], map[])
    {
      this.store, this.wire := store, wire;
      lru, dht := map[], map[];
      held := store.packets;
    }

    /**
     * Publishes a packet. It replaces what is stored unless that is more recent, and then
     * neither cache holds the key any more.
     */
    method Insert(p: Packet) returns (updated: bool)
      requires Valid()
      modifies this, store
      ensures Valid()
      ensures updated == !old(PacketStore.Superseded(store.packets, p))
      ensures store.Contents() == PacketStore.Upserted(old(store.Contents()), p)
      ensures Contents() == if updated then Removed(old(Contents()), p.key) else old(Contents())
    {
      updated := store.Upsert(p);
      if updated {
        held := held[p.key := p];
        lru := lru - {p.key};
        dht := dht - {p.key};
      }
    }

    /** The packet store drops an expired packet; the caches are not told. */
    method Expire(time: u64, key: Key, now: u64)
      requires Valid()
      modifies store
      ensures Valid()
      ensures store.Contents() == PacketStore.Checked(
        old(store.Contents()), time, key, PacketStore.Cutoff(now, store.eviction))
    {
      store.CheckExpired(time, key, now);
    }

    /** The caches drop entries on their own: the least recently used, the outlived. */
    method Drop(fromLru: set<Key>, fromDht: set<Key>)
      requires Valid()
      modifies this
      ensures Valid() && Contents() == Caches(old(lru) - fromLru, old(dht) - fromDht)
    {
      lru := lru - fromLru;
      dht := dht - fromDht;
    }

    method InsertIntoCache(p: Packet) returns (ok: bool)
      modifies this`lru
      ensures Contents() == Filled(old(Contents()), wire, p)
      ensures ok == (old(CachedIsNewer(Contents(), p)) || ZoneOfPacket(wire, p).Some?)
    {
      if p.key in lru && lru[p.key].timestamp > p.stamp.timestamp {
        return true;
      }
      var zone := ZoneOfPacket(wire, p);
      if zone.None? {
        return false;
      }
      lru := lru[p.key := zone.value];
      return true;
    }

    method AskCache(k: Key, name: Name, rtype: RecordType) returns (r: Option<RecordSet>)
      ensures r == CacheAnswer(Contents(), k, name, rtype)
    {
      if k in lru {
        r := Lookup(lru[k].records, name, rtype);
      } else if k in dht {
        r := Lookup(dht[k].records, name, rtype);
      } else {
        r := None;
      }
    }

    /**
     * Answers a query. For a stored key the answer is that of the stored packet, whatever the
     * caches hold. For other keys it is that of a cache, or else of what the DHT returns.
     */
    method Resolve(k: Key, name: Name, rtype: RecordType, fromDht: Option<Packet>)
      returns (r: Answer)
      requires Valid()
      requires fromDht.Some? ==> fromDht.value.key == k
      modifies this
      ensures Valid()
      ensures k in store.packets ==> r == PacketAnswer(wire, store.packets[k], name, rtype)
      ensures k !in store.packets ==>
        r == match old(CacheAnswer(Contents(), k, name, rtype))
             case Some(records) => Ok(Some(records))
             case None =>
               if fromDht.None? then Ok(None)
               else PacketAnswer(wire, fromDht.value, name, rtype)
      ensures k in store.packets ==>
        Contents() == if old(CacheAnswer(Contents(), k, name, rtype)).Some?
                      then old(Contents())
                      else Filled(old(Contents()), wire, store.packets[k])
      ensures k !in store.packets ==>
        Contents() == if old(CacheAnswer(Contents(), k, name, rtype)).Some? || fromDht.None?
                      then old(Contents())
                      else FilledDht(old(Contents()), wire, fromDht.value)
    {
      var cached := AskCache(k, name, rtype);
      if cached.Some? {
        return Ok(cached);
      }
      var stored := store.Get(k);
      if stored.Some? {
        var ok := InsertIntoCache(stored.value);
        if !ok {
          return Err("cannot decode packet");
        }
        var answer := AskCache(k, name, rtype);
        return Ok(answer);
      }
      if fromDht.Some? {
        var zone := ZoneOfPacket(wire, fromDht.value);
        if zone.None? {
          return Err("cannot decode packet");
        }
        dht := dht[k := zone.value];
        return Ok(Lookup(zone.value.records, name, rtype));
      }
      return Ok(None);
    }
  }
}
