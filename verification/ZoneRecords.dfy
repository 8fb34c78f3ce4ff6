/**
 * The records of a packet, grouped into record sets that can be looked up by name and type.
 * Names are relative to the zone of the packet's key and compare without regard to case.
 */
module ZoneRecords {
  import opened Wrappers
  import opened Sequences

  type Label = string
  type Name = seq<Label>

  datatype RecordType = SOA | NS | A | AAAA | TXT | CNAME | Other(code: nat)

  datatype Record = Record(name: Name, rtype: RecordType, ttl: nat, data: seq<int>)

  datatype RrKey = RrKey(name: Name, rtype: RecordType)

  datatype RecordSet = RecordSet(name: Name, rtype: RecordType, records: seq<Record>)

  type Zone = map<RrKey, RecordSet>

  /** The longest encoded domain name, section 3.1 of RFC 1035. */
  const MAX_NAME: nat := 255

  // Names -----------------------------------------------------------------------------------

  function LowerChar(c: char): (r: char) {
    if 'A' <= c <= 'Z' then (c as int - 'A' as int + 'a' as int) as char else c
  }

  function Lower(l: Label): (r: Label)
    ensures |r| == |l| && forall i | 0 <= i < |l| :: r[i] == LowerChar(l[i])
  {
    seq(|l|, i requires 0 <= i < |l| => LowerChar(l[i]))
  }

  function LowerName(n: Name): (r: Name)
    ensures |r| == |n| && forall i | 0 <= i < |n| :: r[i] == Lower(n[i])
  {
    seq(|n|, i requires 0 <= i < |n| => Lower(n[i]))
  }

  function EncodedLength(n: Name): (len: nat) {
    if n == [] then 1 else |n[0]| + 1 + EncodedLength(n[1..])
  }

  /** Two characters are the same up to case exactly if they are, or are one letter's two cases. */
  lemma CaseFolding(a: char, b: char)
    ensures LowerChar(a) == LowerChar(b) <==>
      || a == b
      || ('A' <= a <= 'Z' && b as int == a as int + 32)
      || ('A' <= b <= 'Z' && a as int == b as int + 32)
  {}

  /** The length of every label and of its contents, and the end: section 3.1 of RFC 1035. */
  lemma {:induction false} EncodedLengthOfSum(a: Name, b: Name)
    ensures EncodedLength([]) == 1
    ensures a != [] ==> EncodedLength(a + b) == 1 + |a[0]| + EncodedLength(a[1..] + b)
    ensures EncodedLength(a + b) == EncodedLength(a) + EncodedLength(b) - 1
    decreases |a|
  {
    if a == [] {
      assert a + b == b;
    } else {
      assert (a + b)[1..] == a[1..] + b;
      EncodedLengthOfSum(a[1..], b);
    }
  }

  function KeyOf(r: Record): (k: RrKey) {
    RrKey(LowerName(r.name), r.rtype)
  }

  // Record sets -----------------------------------------------------------------------------

  predicate Same(a: Record, b: Record) {
    LowerName(a.name) == LowerName(b.name) && a.rtype == b.rtype && a.ttl == b.ttl
    && a.data == b.data
  }

  /** Records are the same if they differ in nothing but the case of their names. */
  lemma SameExactly(a: Record, b: Record)
    ensures Same(a, b) <==> a.(name := LowerName(a.name)) == b.(name := LowerName(b.name))
  {}

  predicate Has(rs: seq<Record>, r: Record) {
    exists i | 0 <= i < |rs| :: Same(rs[i], r)
  }

  /** A record set does not hold the same record twice, section 5 of RFC 2181. */
  function Insert(rs: seq<Record>, r: Record): (rs': seq<Record>) {
    if Has(rs, r) then rs else rs + [r]
  }

  /** The records without repetitions, each where it first occurs. */
  function Distinct(rs: seq<Record>): (d: seq<Record>)
    decreases |rs|
  {
    if rs == [] then [] else Insert(Distinct(rs[..|rs| - 1]), rs[|rs| - 1])
  }

  ghost predicate NoRepeats(rs: seq<Record>) {
    forall i, j | 0 <= i < j < |rs| :: !Same(rs[i], rs[j])
  }

  // Grouping --------------------------------------------------------------------------------

  /** Whether a record of the packet becomes part of the zone of the key labelled `zone`. */
  predicate Kept(r: Record, zone: Label, filter: Record -> bool) {
    && r.rtype != SOA && r.rtype != NS
    && r.name != [] && Lower(r.name[|r.name| - 1]) == Lower(zone)
    && filter(r)
  }

  /** The filter that lets every record through. */
  predicate Everything(r: Record) {
    true
  }

  function Stripped(r: Record): (s: Record)
    requires r.name != []
  {
    r.(name := r.name[..|r.name| - 1])
  }

  /** All records of the zone, in packet order, with the zone label taken off their names. */
  function InZone(answers: seq<Record>, zone: Label, filter: Record -> bool): (rs: seq<Record>)
    decreases |answers|
  {
    if answers == [] then []
    else
      var r := answers[|answers| - 1];
      InZone(answers[..|answers| - 1], zone, filter)
      + (if Kept(r, zone, filter) then [Stripped(r)] else [])
  }

  function WithKey(rs: seq<Record>, k: RrKey): (ks: seq<Record>)
    decreases |rs|
  {
    if rs == [] then []
    else
      var r := rs[|rs| - 1];
      WithKey(rs[..|rs| - 1], k) + (if KeyOf(r) == k then [r] else [])
  }

  /** What a zone is: under every key the distinct records with that key, if there are any. */
  ghost predicate GroupsAt(zone: Zone, rs: seq<Record>, k: RrKey) {
    var ks := WithKey(rs, k);
    && (k in zone <==> ks != [])
    && (k in zone ==> zone[k] == RecordSet(ks[0].name, k.rtype, Distinct(ks)))
  }

  ghost predicate Groups(zone: Zone, rs: seq<Record>) {
    forall k :: GroupsAt(zone, rs, k)
  }

  /** Adds one record to the set under its key. */
  function AddRecord(zone: Zone, r: Record): (zone': Zone) {
    var k := KeyOf(r);
    if k in zone
    then zone[k := zone[k].(records := Insert(zone[k].records, r))]
    else zone[k := RecordSet(r.name, r.rtype, [r])]
  }

  function ZoneOf(rs: seq<Record>): (zone: Zone)
    decreases |rs|
  {
    if rs == [] then map[] else AddRecord(ZoneOf(rs[..|rs| - 1]), rs[|rs| - 1])
  }

  method GroupRecords(answers: seq<Record>, zone: Label, filter: Record -> bool)
    returns (output: Zone)
    ensures output == ZoneOf(InZone(answers, zone, filter))
    ensures Groups(output, InZone(answers, zone, filter))
  {
    output := map[];
    for i := 0 to |answers|
      invariant output == ZoneOf(InZone(answers[..i], zone, filter))
    {
      var record := answers[i];
      InZoneSnoc(answers, i, zone, filter);
      if record.rtype == SOA || record.rtype == NS {
        continue;
      }
      if |record.name| < 1 {
        continue;
      }
      if Lower(record.name[|record.name| - 1]) != Lower(zone) {
        continue;
      }
      if !filter(record) {
        continue;
      }
      record := record.(name := record.name[..|record.name| - 1]);
      ZoneOfSnoc(InZone(answers[..i], zone, filter), record);
      var key := RrKey(LowerName(record.name), record.rtype);
      if key in output {
        var group := output[key];
        output := output[key := group.(records := Insert(group.records, record))];
      } else {
        output := output[key := RecordSet(record.name, record.rtype, [record])];
      }
    }
    assert answers[..|answers|] == answers;
    ZoneOfGroups(InZone(answers, zone, filter));
  }

  lemma ZoneOfSnoc(rs: seq<Record>, r: Record)
    ensures ZoneOf(rs + [r]) == AddRecord(ZoneOf(rs), r)
  {
    assert (rs + [r])[..|rs|] == rs;
  }

  lemma {:induction false} ZoneOfGroups(rs: seq<Record>)
    ensures Groups(ZoneOf(rs), rs)
    decreases |rs|
  {
    if rs != [] {
      var init, r := rs[..|rs| - 1], rs[|rs| - 1];
      ZoneOfGroups(init);
      AddKeepsGroups(ZoneOf(init), init, r);
      assert rs == init + [r];
    }
  }

  lemma InZoneSnoc(answers: seq<Record>, i: nat, zone: Label, filter: Record -> bool)
    requires i < |answers|
    ensures var rs := InZone(answers[..i], zone, filter);
            InZone(answers[..i + 1], zone, filter)
            == if Kept(answers[i], zone, filter) then rs + [Stripped(answers[i])] else rs
  {
    assert answers[..i + 1][..i] == answers[..i];
  }

  lemma AddKeepsGroups(zone: Zone, rs: seq<Record>, r: Record)
    requires Groups(zone, rs)
    ensures Groups(AddRecord(zone, r), rs + [r])
  {
    forall k ensures GroupsAt(AddRecord(zone, r), rs + [r], k) {
      assert GroupsAt(zone, rs, k);
      WithKeySnoc(rs, r, k);
      if KeyOf(r) == k {
        DistinctSnoc(WithKey(rs, k), r);
      } else {
        assert WithKey(rs + [r], k) == WithKey(rs, k);
      }
    }
  }

  lemma WithKeySnoc(rs: seq<Record>, r: Record, k: RrKey)
    ensures WithKey(rs + [r], k) == WithKey(rs, k) + (if KeyOf(r) == k then [r] else [])
  {
    assert (rs + [r])[..|rs|] == rs;
  }

  lemma DistinctSnoc(rs: seq<Record>, r: Record)
    ensures Distinct(rs + [r]) == Insert(Distinct(rs), r)
  {
    assert (rs + [r])[..|rs|] == rs;
  }

  // What grouping preserves -----------------------------------------------------------------

  /** `CachedZone::resolve`. */
  function Lookup(zone: Zone, name: Name, rtype: RecordType): (r: Option<RecordSet>) {
    var key := RrKey(LowerName(name), rtype);
    if key in zone then Some(zone[key]) else None
  }

  lemma {:induction false} InZoneHas(
    answers: seq<Record>, zone: Label, filter: Record -> bool, x: Record)
    ensures x in InZone(answers, zone, filter) <==>
      exists i | 0 <= i < |answers| :: Kept(answers[i], zone, filter) && Stripped(answers[i]) == x
    decreases |answers|
  {
    if answers != [] {
      var init, r := answers[..|answers| - 1], answers[|answers| - 1];
      InZoneHas(init, zone, filter, x);
      assert forall i | 0 <= i < |init| :: init[i] == answers[i];
      if Kept(r, zone, filter) && Stripped(r) == x {
        assert answers[|answers| - 1] == r;
      }
    }
  }

  lemma {:induction false} WithKeyHas(rs: seq<Record>, k: RrKey, x: Record)
    ensures x in WithKey(rs, k) <==> x in rs && KeyOf(x) == k
    decreases |rs|
  {
    if rs != [] {
      assert rs == rs[..|rs| - 1] + [rs[|rs| - 1]];
      WithKeyHas(rs[..|rs| - 1], k, x);
    }
  }

  lemma {:induction false} DistinctHas(rs: seq<Record>, x: Record)
    ensures NoRepeats(Distinct(rs)) && (Has(Distinct(rs), x) <==> Has(rs, x))
    ensures x in Distinct(rs) ==> x in rs
    decreases |rs|
  {
    if rs != [] {
      var init, r := rs[..|rs| - 1], rs[|rs| - 1];
      DistinctHas(init, x);
      var d := Distinct(init);
      assert forall i | 0 <= i < |init| :: init[i] == rs[i];
      assert forall i | 0 <= i < |d| :: Insert(d, r)[i] == d[i];
      if Same(r, x) {
        assert Has(rs, x) by { assert Same(rs[|rs| - 1], x); }
        if Has(d, r) {
          var i :| 0 <= i < |d| && Same(d[i], r);
          assert Same(d[i], x);
        } else {
          assert Same((d + [r])[|d|], x);
        }
      }
      if Has(init, x) {
        var i :| 0 <= i < |init| && Same(init[i], x);
        assert Same(rs[i], x);
        var j :| 0 <= j < |d| && Same(d[j], x);
        assert Same(Insert(d, r)[j], x);
      }
    }
  }

  /** A record of the type, time to live and data of `r`, whatever it is called. */
  predicate HoldsData(rs: seq<Record>, r: Record) {
    exists i | 0 <= i < |rs| :: rs[i].rtype == r.rtype && rs[i].ttl == r.ttl && rs[i].data == r.data
  }

  /** Which records of a packet a query is about, by their full names. */
  lemma KeptExactly(r: Record, zone: Label, name: Name, rtype: RecordType)
    ensures Kept(r, zone, Everything) && KeyOf(Stripped(r)) == RrKey(LowerName(name), rtype) <==>
      && r.rtype == rtype && rtype != SOA && rtype != NS
      && LowerName(r.name) == LowerName(name + [zone])
  {
    var full := name + [zone];
    if LowerName(r.name) == LowerName(full) {
      var init := r.name[..|r.name| - 1];
      assert forall i | 0 <= i < |init| :: LowerName(init)[i] == LowerName(r.name)[i];
      assert forall i | 0 <= i < |name| :: LowerName(name)[i] == LowerName(full)[i];
      assert LowerName(init) == LowerName(name);
      assert LowerName(r.name)[|name|] == Lower(zone);
    }
    if r.name != [] && Lower(r.name[|r.name| - 1]) == Lower(zone)
       && LowerName(r.name[..|r.name| - 1]) == LowerName(name) {
      SameFullName(r.name, name, zone);
    }
  }

  lemma SameFullName(n: Name, name: Name, zone: Label)
    requires n != [] && Lower(n[|n| - 1]) == Lower(zone)
    requires LowerName(n[..|n| - 1]) == LowerName(name)
    ensures LowerName(n) == LowerName(name + [zone])
  {
    var init := n[..|n| - 1];
    assert |init| == |LowerName(init)| == |name|;
    forall i | 0 <= i < |n| ensures LowerName(n)[i] == LowerName(name + [zone])[i] {
      if i < |init| {
        assert LowerName(init)[i] == LowerName(name)[i];
      }
    }
  }

  /**
   * Looking up a name and type gives a set exactly when the packet has such a record under the
   * key's zone, and then the set holds those records and no others, none twice, and never a
   * SOA or NS record.
   */
  lemma LookupMeansFilter(
    answers: seq<Record>, zone: Label, filter: Record -> bool, output: Zone,
    name: Name, rtype: RecordType, x: Record)
    requires Groups(output, InZone(answers, zone, filter))
    ensures
      var found := Lookup(output, name, rtype);
      && (found.Some? <==> exists i | 0 <= i < |answers| ::
            Kept(answers[i], zone, filter)
            && KeyOf(Stripped(answers[i])) == RrKey(LowerName(name), rtype))
      && (found.Some? ==> found.value.records != [] && NoRepeats(found.value.records))
      && (found.Some? ==> rtype != SOA && rtype != NS)
      && (found.Some? ==> found.value.rtype == rtype
                          && LowerName(found.value.name) == LowerName(name))
      && (found.Some? && x in found.value.records ==>
            KeyOf(x) == RrKey(LowerName(name), rtype)
            && exists i | 0 <= i < |answers| ::
              Kept(answers[i], zone, filter) && Stripped(answers[i]) == x)
      && (forall i | 0 <= i < |answers| && Kept(answers[i], zone, filter) ::
            KeyOf(Stripped(answers[i])) == RrKey(LowerName(name), rtype) ==>
              found.Some? && HoldsData(found.value.records, answers[i]))
  {
    var k, rs := RrKey(LowerName(name), rtype), InZone(answers, zone, filter);
    var ks := WithKey(rs, k);
    assert GroupsAt(output, rs, k);
    DistinctHas(ks, x);
    WithKeyHas(rs, k, x);
    InZoneHas(answers, zone, filter, x);
    if ks != [] {
      WithKeyHas(rs, k, ks[0]);
      InZoneHas(answers, zone, filter, ks[0]);
      DistinctHas(ks, ks[0]);
      assert Same(ks[0], ks[0]);
    }
    forall i | 0 <= i < |answers| && Kept(answers[i], zone, filter)
               && KeyOf(Stripped(answers[i])) == k
      ensures ks != [] && HoldsData(Distinct(ks), answers[i])
    {
      var y := Stripped(answers[i]);
      InZoneHas(answers, zone, filter, y);
      WithKeyHas(rs, k, y);
      DistinctHas(ks, y);
      var j :| 0 <= j < |ks| && ks[j] == y;
      assert Same(ks[j], y);
      var h :| 0 <= h < |Distinct(ks)| && Same(Distinct(ks)[h], y);
    }
  }

  lemma {:induction false} HasWithKey(rs: seq<Record>, r: Record)
    ensures Has(WithKey(rs, KeyOf(r)), r) <==> Has(rs, r)
    decreases |rs|
  {
    if rs != [] {
      var init, last := rs[..|rs| - 1], rs[|rs| - 1];
      HasWithKey(init, r);
      var ks := WithKey(init, KeyOf(r));
      assert forall i | 0 <= i < |init| :: init[i] == rs[i];
      assert forall i | 0 <= i < |ks| :: WithKey(rs, KeyOf(r))[i] == ks[i];
      if Same(last, r) {
        assert Same(rs[|rs| - 1], r) && Same(WithKey(rs, KeyOf(r))[|ks|], r);
      }
      if Has(init, r) {
        var i :| 0 <= i < |init| && Same(init[i], r);
        assert Same(rs[i], r);
        var j :| 0 <= j < |ks| && Same(ks[j], r);
        assert Same(WithKey(rs, KeyOf(r))[j], r);
      }
    }
  }

  /**
   * Nothing is lost or counted twice: the sets are the pieces, one for each key, of a single
   * list, that of the distinct records of the zone.
   */
  lemma {:induction false} SetsArePieces(rs: seq<Record>, k: RrKey)
    ensures Distinct(WithKey(rs, k)) == WithKey(Distinct(rs), k)
    decreases |rs|
  {
    if rs != [] {
      var init, r := rs[..|rs| - 1], rs[|rs| - 1];
      SetsArePieces(init, k);
      var d := Distinct(init);
      WithKeySnoc(d, r, k);
      if KeyOf(r) == k {
        DistinctSnoc(WithKey(init, k), r);
        HasWithKey(d, r);
      } else {
        assert WithKey(rs, k) == WithKey(init, k);
        assert WithKey(d + [r], k) == WithKey(d, k);
      }
    }
  }

  /** How many records the sets under these keys hold together. */
  function CountRecords(zone: Zone, keys: seq<RrKey>): (n: nat)
    requires forall k | k in keys :: k in zone
  {
    if keys == [] then 0 else |zone[keys[0]].records| + CountRecords(zone, keys[1..])
  }

  function CountPieces(rs: seq<Record>, keys: seq<RrKey>): (n: nat) {
    if keys == [] then 0 else |WithKey(rs, keys[0])| + CountPieces(rs, keys[1..])
  }

  lemma {:induction false} CountPiecesSnoc(rs: seq<Record>, r: Record, keys: seq<RrKey>)
    requires NoDuplicates(keys)
    ensures CountPieces(rs + [r], keys)
            == CountPieces(rs, keys) + if KeyOf(r) in keys then 1 else 0
    decreases |keys|
  {
    if keys != [] {
      WithKeySnoc(rs, r, keys[0]);
      CountPiecesSnoc(rs, r, keys[1..]);
      assert keys == [keys[0]] + keys[1..];
    }
  }

  lemma {:induction false} NoPieces(keys: seq<RrKey>)
    ensures CountPieces([], keys) == 0
    decreases |keys|
  {
    if keys != [] {
      NoPieces(keys[1..]);
    }
  }

  lemma {:induction false} PiecesAddUp(rs: seq<Record>, keys: seq<RrKey>)
    requires NoDuplicates(keys) && forall i | 0 <= i < |rs| :: KeyOf(rs[i]) in keys
    ensures CountPieces(rs, keys) == |rs|
    decreases |rs|
  {
    if rs == [] {
      NoPieces(keys);
    } else {
      var init, r := rs[..|rs| - 1], rs[|rs| - 1];
      PiecesAddUp(init, keys);
      CountPiecesSnoc(init, r, keys);
      assert rs == init + [r];
    }
  }

  lemma {:induction false} CountIsOfPieces(zone: Zone, rs: seq<Record>, keys: seq<RrKey>)
    requires Groups(zone, rs) && forall k | k in keys :: k in zone
    ensures CountRecords(zone, keys) == CountPieces(Distinct(rs), keys)
    decreases |keys|
  {
    if keys != [] {
      assert GroupsAt(zone, rs, keys[0]);
      SetsArePieces(rs, keys[0]);
      CountIsOfPieces(zone, rs, keys[1..]);
    }
  }

  /** Counts are conserved: the sets of a zone hold as many records as it has distinct ones. */
  lemma SetsAddUp(zone: Zone, rs: seq<Record>, keys: seq<RrKey>)
    requires Groups(zone, rs) && NoDuplicates(keys) && forall k :: k in keys <==> k in zone
    ensures CountRecords(zone, keys) == |Distinct(rs)|
  {
    CountIsOfPieces(zone, rs, keys);
    var d := Distinct(rs);
    forall i | 0 <= i < |d| ensures KeyOf(d[i]) in keys {
      DistinctKeysInZone(zone, rs, d[i]);
    }
    PiecesAddUp(d, keys);
  }

  lemma DistinctKeysInZone(zone: Zone, rs: seq<Record>, x: Record)
    requires Groups(zone, rs) && x in Distinct(rs)
    ensures KeyOf(x) in zone
  {
    DistinctHas(rs, x);
    WithKeyHas(rs, KeyOf(x), x);
    assert GroupsAt(zone, rs, KeyOf(x));
  }

  // Renaming --------------------------------------------------------------------------------

  function Renamed(rs: seq<Record>, name: Name): (out: seq<Record>)
    ensures |out| == |rs| && forall i | 0 <= i < |rs| :: out[i] == rs[i].(name := name)
  {
    seq(|rs|, i requires 0 <= i < |rs| => rs[i].(name := name))
  }

  lemma RenamedNext(rs: seq<Record>, i: nat, name: Name)
    requires i < |rs|
    ensures Distinct(Renamed(rs[..i + 1], name))
            == Insert(Distinct(Renamed(rs[..i], name)), rs[i].(name := name))
  {
    DistinctSnoc(Renamed(rs[..i], name), rs[i].(name := name));
    assert Renamed(rs[..i + 1], name) == Renamed(rs[..i], name) + [rs[i].(name := name)];
  }

  method AppendOrigin(input: RecordSet, origin: Name) returns (r: Result<RecordSet, string>)
    ensures r.Ok? <==> EncodedLength(input.name + origin) <= 255
    ensures r.Ok? ==>
      r.value == RecordSet(input.name + origin, input.rtype,
                           Distinct(Renamed(input.records, input.name + origin)))
  {
    var name := input.name + origin;
    if EncodedLength(name) > MAX_NAME {
      return Err("name too long");
    }
    var records := [];
    for i := 0 to |input.records|
      invariant records == Distinct(Renamed(input.records[..i], name))
    {
      RenamedNext(input.records, i, name);
      records := Insert(records, input.records[i].(name := name));
    }
    assert input.records[..|input.records|] == input.records;
    return Ok(RecordSet(name, input.rtype, records));
  }

  lemma {:induction false} DistinctOfDistinct(rs: seq<Record>)
    requires NoRepeats(rs)
    ensures Distinct(rs) == rs
    decreases |rs|
  {
    if rs != [] {
      var init := rs[..|rs| - 1];
      DistinctOfDistinct(init);
      assert !Has(init, rs[|rs| - 1]);
      assert rs == init + [rs[|rs| - 1]];
    }
  }

  /** The records of a set differ in more than the spelling of their names. */
  ghost predicate OneKey(rs: seq<Record>, k: RrKey) {
    NoRepeats(rs) && forall i | 0 <= i < |rs| :: KeyOf(rs[i]) == k
  }

  /** Every set of a zone is one that renaming leaves as long as it was. */
  lemma ZoneSetsHaveOneKey(zone: Zone, rs: seq<Record>, k: RrKey)
    requires Groups(zone, rs) && k in zone
    ensures OneKey(zone[k].records, k)
  {
    var ks := WithKey(rs, k);
    assert GroupsAt(zone, rs, k);
    forall x | x in Distinct(ks) ensures KeyOf(x) == k {
      DistinctHas(ks, x);
      WithKeyHas(rs, k, x);
    }
    DistinctHas(ks, ks[0]);
  }

  /** Appending an origin to a set of a zone renames its records and does nothing else. */
  lemma AppendOnlyRenames(rs: seq<Record>, k: RrKey, name: Name)
    requires OneKey(rs, k)
    ensures Distinct(Renamed(rs, name)) == Renamed(rs, name)
  {
    var out := Renamed(rs, name);
    forall i, j | 0 <= i < j < |rs| ensures !Same(out[i], out[j]) {
      assert KeyOf(rs[i]) == KeyOf(rs[j]) && !Same(rs[i], rs[j]);
    }
    DistinctOfDistinct(out);
  }

  /** Appending the zone label puts back the name a record had in the packet, up to case. */
  lemma StripThenAppend(r: Record, zone: Label, filter: Record -> bool)
    requires Kept(r, zone, filter)
    ensures LowerName(Stripped(r).name + [zone]) == LowerName(r.name)
  {
    var n := Stripped(r).name + [zone];
    assert forall i | 0 <= i < |n| :: Lower(n[i]) == Lower(r.name[i]);
  }
}
