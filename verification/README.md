# Verified model of the discovery core and the tunnel

A Dafny model of the parts of this repository where correctness rests on an interleaving, on
a codec or on a cache, with proofs of what they promise. `dafny verify dfyconfig.toml` checks
all of it.

| file | models |
|---|---|
| `ResolverReset.dfy` | the swappable DNS resolver: `reset` and `op`, interleaved step by step |
| `HostStream.dfy` | `resolve_host_all`, the stream over two lookups |
| `Clock.dfy` | `Timestamp::now`, the lock-free clock |
| `Pkarr.dfy` | signed packets: signed bytes, wire and storage format, recency, names |
| `PacketStore.dfy` | the packet store actor, its index and its eviction task |
| `ZoneRecords.dfy` | grouping the records of a packet into record sets |
| `ZoneCache.dfy` | the zone store with its two caches, calls one after the other |
| `ZoneCacheRaces.dfy` | the same with overlapping calls |
| `TxtAttrs.dfy`, `EndpointInfo.dfy`, `CustomAddr.dfy` | endpoint information as attributes, as TXT strings, and custom addresses |
| `TunnelFrames.dfy`, `TunnelSession.dfy` | the tunnel: framing, the shared connection, retries |
| `AuthTask.dfy` | the outgoing authenticator of the auth hook |
| `AddressLookup.dfy` | the registry of address lookup services and its merged stream |
| `AddressLookupRaces.dfy` | the registry with overlapping calls |
| `Runs.dfy`, `Sequences.dfy`, `Digits.dfy`, `Bytes.dfy`, `Wrappers.dfy` | runs of state machines, sequences, positional notation, byte strings, `Option` and `Result` |

A protocol of overlapping calls is a state machine whose steps are the atomic accesses of the
code. A run is any sequence of enabled steps, and a theorem about runs holds for any number of
calls in any order. An object that the code changes in place is a class. Its methods are
proved against functions on its contents, and the laws are proved about those functions.
Libraries (signatures, the DNS wire format, LZ4, the parsers of URLs and socket addresses,
z-base-32) are parameters. Where a theorem needs something of one, a predicate such as `Sound`
or a `requires` says what.

## Where the code does not do what is said of it

- `resolve_host_all` is documented to yield an error only if both lookups failed. The code
  also yields `NoResponse` when a lookup succeeds without any address and nothing else was
  found (`HostStream.EmptyAnswer`). `HostStream.ErrorsAndOrder` has the exact condition.
- `ZoneStore::insert` is documented to return whether the packet is the newest. It also
  returns true, and clears the caches, when the stored packet is published again
  (`PacketStore.RepeatIsAnUpdate`). `PacketStore.UpdatedExactly` has the exact condition.
- A TXT value that contains `=` is cut there when it is read, while RFC 1464, section 2, makes
  everything after the first `=` the value (`TxtAttrs.ValueIsCut`).
  `TxtAttrs.RoundTripIsIdentityExactly` and `EndpointInfo.TextRoundTripExactly` say exactly
  what survives.
- A lookup can time out on a replaced resolver with no reset under way, because a whole reset
  fits between the check for a wake and the check of the timer (`ResolverReset.LateWakeRun`).
  `ResolverReset.TimeoutExactly` says when.
- `reset` is meant to make lookups use a resolver built for the changed network. A reset that
  loses the exchange can return while the current resolver was built before it began
  (`ResolverReset.OutdatedRun`). `ResolverReset.OutdatedExactly` says when, and
  `ResolverReset.TwoResetsSuffice` that a second reset afterwards always repairs it.
- A query that overlaps a publication can leave the replaced zone in the cache
  (`ZoneCacheRaces.StaleRun`). `ZoneCacheRaces.StalenessExactly` says which steps make the
  cache and the store come apart.
- A query that asks the DHT while the key is published can make the DHT cache answer for a
  stored key (`ZoneCacheRaces.DhtShadowsStoreRun`). `ZoneCacheRaces.ShadowingExactly` says
  which steps do that, and `ZoneCacheRaces.RunsAgreeExactly` puts both together for whole runs.
- `invalidate_connection` drops whatever connection is in the cell, also one newer than the
  connection that failed (`TunnelSession.InvalidationDropsANewerConnection`).
  `TunnelSession.DropsAnotherExactly` says when.
- A service that is added while something is published can miss it
  (`AddressLookup.MissedPublication`). `AddressLookup.OverlappedAddIsUpToDateExactly` says when.
- Two publications that overlap can be given to a service in one order and be written down in
  the other, so that a service added later gets other data than those there are
  (`AddressLookupRaces.OvertakenRun`). `AddressLookupRaces.OutOfStepExactly` says which steps
  do that, and `AddressLookupRaces.RunsInStepExactly` puts it together for whole runs.
- The filter is documented to apply to all data before it is distributed. Data published
  before a filter is set is handed to services added afterwards as it was
  (`AddressLookup.FilterSetTooLate`). `AddressLookup.AddedServiceGets` says what exactly is
  handed over, and when that is what the filter in force would let through.
- A row of the older storage format would be read as a different packet if its DNS part also
  parses without its first eight bytes. `Pkarr.OldFormat` has the exact condition, and
  `Pkarr.OldFormatMisread` a parser and a packet of that kind.
- `Timestamp::now` is documented to return a larger value than any previous call. It goes back
  after the largest 64-bit value (`Clock.WrapRun`), and only then (`Clock.IncreasesExactly`).

## Model

| member | source | states |
|---|---|---|
| `ResolverReset.RunKeepsInv` | iroh-dns/src/dns.rs:272-329 | every step of `reset` and `op`, of any number of calls, keeps the invariant that links tickets, wakes, resolvers and winning resets |
| `ResolverReset.NoLostWake` | iroh-dns/src/dns.rs:272-329 | in every run a lookup on a replaced resolver has a wake waiting, or some reset of that resolver or a later one has swapped and is about to wake |
| `ResolverReset.QuietStateRestartsStaleLookups` | iroh-dns/src/dns.rs:301-329 | with no reset between its swap and its wake, a lookup on a replaced resolver that is between polls can restart and cannot find itself unwoken or time out |
| `ResolverReset.OneWinner` | iroh-dns/src/dns.rs:272-279 | of the resets that loaded the same resolver at most one installs a new one |
| `ResolverReset.ResolversMoveForward` | iroh-dns/src/dns.rs:272-279 | the current resolver never goes back to an earlier one |
| `ResolverReset.LaterAttemptsUseALaterResolver` | iroh-dns/src/dns.rs:272-329 | once a reset has returned, won or lost, no attempt starts on the resolver it loaded |
| `ResolverReset.OutdatedExactly` | iroh-dns/src/dns.rs:272-279 | after a reset has returned the current resolver was built before it began exactly when the reset that beat it to the exchange had built its resolver before and that is still current; a reset that won is never late |
| `ResolverReset.TwoResetsSuffice` | iroh-dns/src/dns.rs:272-279 | once a reset that began after another one returned has returned itself, the current resolver was built after the first one began |
| `ResolverReset.OutdatedRun` | iroh-dns/src/dns.rs:272-279 | a concrete run in which a reset returns and the current resolver was built before it began |
| `ResolverReset.RetriesAreBounded` | iroh-dns/src/dns.rs:301-329 | a lookup starts over at most once for each wake issued since it began |
| `ResolverReset.TimeoutIsJustified` | iroh-dns/src/dns.rs:322-327 | a lookup that timed out was, when it last found no wake, on the current resolver or a reset was between swap and wake |
| `ResolverReset.TimeoutWithoutLateWake` | iroh-dns/src/dns.rs:322-327 | the same holds at the moment of the timeout if no wake has come since |
| `ResolverReset.TimeoutExactly` | iroh-dns/src/dns.rs:322-327 | at the moment of the timeout it fails exactly when the reset that replaced the resolver has returned and no other is between swap and wake |
| `ResolverReset.LateWakeRun` | iroh-dns/src/dns.rs:272-329 | a concrete run in which it fails |
| `HostStream.HostStream.constructor` | iroh-dns/src/dns.rs:517-541 | a new stream will yield exactly the specified items |
| `HostStream.HostStream.Next` | iroh-dns/src/dns.rs:543-586 | one poll yields the first remaining item, or ends exactly when none remains, and stays ended |
| `HostStream.HostStream.Close` | iroh-dns/src/dns.rs:543-586 | when both lookups are done and the queue is empty, the error still due is yielded, if one is, and the stream ends |
| `HostStream.HostStream.CompleteV4` | iroh-dns/src/dns.rs:543-586 | completing the IPv4 lookup, with addresses or an error, changes nothing of what remains to be yielded |
| `HostStream.HostStream.CompleteV6` | iroh-dns/src/dns.rs:543-586 | completing the IPv6 lookup, with addresses or an error, changes nothing of what remains to be yielded |
| `HostStream.ResolveHostAll` | iroh-dns/src/dns.rs:496-587 | draining the stream terminates with the specified items, for a missing host, a literal address and a domain |
| `HostStream.EveryAddressOnce` | iroh-dns/src/dns.rs:543-586 | the yielded addresses of each family are those of its lookup, once each and in order, in either completion order |
| `HostStream.ErrorsAndOrder` | iroh-dns/src/dns.rs:543-586 | an error is yielded exactly when no address is, alone, and is `ResolveBoth` exactly when both lookups failed; families are contiguous |
| `HostStream.EmptyAnswer` | iroh-dns/src/dns.rs:543-586 | a lookup without addresses and one that failed yield `NoResponse`, in either order |
| `Clock.RunKeepsInv` | iroh-dns/src/pkarr.rs:334-362 | every interleaving keeps every entry of the history of the cell made from the one before by the call that returned it, and earlier history is never changed |
| `Clock.NextValueIsLater` | iroh-dns/src/pkarr.rs:334-362 | the computed value exceeds the last one exactly when that is not the largest 64-bit value |
| `Clock.NextValueIsLeast` | iroh-dns/src/pkarr.rs:351-351 | and is then the least value that exceeds the last one and is not before the clock reading |
| `Clock.IncreasesExactly` | iroh-dns/src/pkarr.rs:334-362 | in every run the history of the cell is strictly increasing exactly when none of its entries but the last is the largest 64-bit value |
| `Clock.ResultsAreNotEarly` | iroh-dns/src/pkarr.rs:334-362 | in every run no result is before the caller's clock reading |
| `Clock.ResultExactly` | iroh-dns/src/pkarr.rs:334-362 | in every run a result is the clock reading if that exceeds the value before it in the history, and else one more than that value, or after the largest one the reading |
| `Clock.ResultsAreDistinctAndOrdered` | iroh-dns/src/pkarr.rs:334-362 | as long as the largest value has not been passed, results of different calls differ and are ordered as their exchanges were |
| `Clock.LaterCallGetsLaterTime` | iroh-dns/src/pkarr.rs:334-362 | as long as the largest value has not been passed, a call that begins after another returned gets a larger value, whatever runs in between |
| `Clock.RetriesArePaidFor` | iroh-dns/src/pkarr.rs:334-362 | a call has retried, spurious failures aside, at most as often as other calls made exchanges since the value it first loaded |
| `Clock.ResultsStayNearTheClock` | iroh-dns/src/pkarr.rs:334-362 | the cell exceeds the largest clock reading by at most the number of exchanges, so the largest value is not passed while that sum is below it |
| `Clock.WrapRun` | iroh-dns/src/pkarr.rs:334-362 | a concrete run in which a call that begins after another returned gets a smaller value |
| `Pkarr.SignableInjective` | iroh-dns/src/pkarr.rs:291-295 | the signed string determines timestamp and payload, also when followed by arbitrary bytes |
| `Pkarr.DecimalDigits` | iroh-dns/src/pkarr.rs:291-295 | numbers are signed in decimal: a digit as itself, a number as its tens followed by its last digit |
| `Pkarr.SignableText` | iroh-dns/src/pkarr.rs:291-295 | the signed string written out as text, for every timestamp and payload |
| `Pkarr.SignableExample` | iroh-dns/src/pkarr.rs:291-295 | the signed string of the example of BEP 44 |
| `Pkarr.FromBytesUnchecked` | iroh-dns/src/pkarr.rs:133-145 | succeeds exactly for packets of admissible length whose DNS part parses, and keeps the bytes |
| `Pkarr.FromBytes` | iroh-dns/src/pkarr.rs:91-117 | succeeds exactly when the unchecked form does and key and signature are valid for timestamp and payload, with the same result |
| `Pkarr.FromBytesErrors` | iroh-dns/src/pkarr.rs:91-145 | each error is reported exactly when its check fails and those before it succeed |
| `Pkarr.PartsRoundTrip` | iroh-dns/src/pkarr.rs:120-267 | the relay payload with the key, and the four parts, are read as the packet they were taken from |
| `Pkarr.BuiltIsAccepted` | iroh-dns/src/pkarr.rs:72-87 | signing fails exactly for oversized payloads, and what it produces verifies and gives back key, timestamp and payload |
| `Pkarr.StoredRoundTrip` | iroh-dns-server/src/store/signed_packets.rs:386-407 | a stored row is read as the packet it was written from, and begins with the time as a big-endian number |
| `Pkarr.OldFormat` | iroh-dns-server/src/store/signed_packets.rs:397-407 | a row of the older format is read correctly exactly when its DNS part is under eight bytes or does not parse without its first eight |
| `Pkarr.OldFormatMisread` | iroh-dns-server/src/store/signed_packets.rs:397-407 | a parser that takes empty DNS headers, and a packet of the older format that is then read as another one |
| `Pkarr.RecencyIsStrictTotalOrder` | iroh-dns/src/pkarr.rs:270-276 | recency is a strict total order on timestamp and payload |
| `Pkarr.RecencyMeans` | iroh-dns/src/pkarr.rs:270-276 | the later timestamp is the more recent; at equal ones the payload with the larger byte at the first difference, or the one that goes on |
| `Pkarr.BigEndianOrder` | iroh-dns-server/src/store/signed_packets.rs:450-453 | the byte order of big-endian numbers is their numeric order, so the range of the index that is scanned is that of the earlier times |
| `Bytes.ByteOrder` | iroh-dns-server/src/store/signed_packets.rs:386-407 | big-endian bytes end, and little-endian bytes begin, with the least significant one |
| `Pkarr.NormalizedName` | iroh-dns/src/pkarr.rs:298-317 | a normalised name ends in the zone label, and normalising again changes nothing |
| `Pkarr.Spellings` | iroh-dns/src/pkarr.rs:298-317 | the relative, dotted and absolute spellings of a name normalise to the same text |
| `Pkarr.ApexSpellings` | iroh-dns/src/pkarr.rs:298-317 | nothing, a dot, the zone label and anything ending in an at sign normalise to the zone itself |
| `PacketStore.PacketIsItsParts` | iroh-dns/src/pkarr.rs:158-183 | two packets are equal exactly when key, signature, timestamp and payload are |
| `PacketStore.UpdatedExactly` | iroh-dns-server/src/store/signed_packets.rs:161-195 | an upsert updates exactly when the key is new, the packet more recent, or the same timestamp and payload are stored |
| `PacketStore.RepeatIsAnUpdate` | iroh-dns-server/src/store/signed_packets.rs:161-195 | publishing the stored packet again counts as an update and changes nothing |
| `PacketStore.UpsertKeepsTables` | iroh-dns-server/src/store/signed_packets.rs:161-195 | an upsert keeps the two tables consistent: every packet indexed, no stray unexpired index entry |
| `PacketStore.CheckKeepsTables` | iroh-dns-server/src/store/signed_packets.rs:217-251 | so does a check for expiry, although it drops the index entry of a packet it keeps, because that entry can only be an outdated one |
| `PacketStore.CutoffMeans` | iroh-dns-server/src/store/signed_packets.rs:221-225 | a time is expired exactly when more than the eviction period has passed since |
| `PacketStore.CheckedExactly` | iroh-dns-server/src/store/signed_packets.rs:217-251 | a check removes the index entry, and the packet exactly when more than the eviction period has passed since its timestamp, and nothing else |
| `PacketStore.Actor.Upsert` | iroh-dns-server/src/store/signed_packets.rs:161-195 | performs the specified upsert on both tables and reports whether it updated |
| `PacketStore.Actor.CheckExpired` | iroh-dns-server/src/store/signed_packets.rs:217-251 | performs the specified check on both tables |
| `PacketStore.Actor.EvictionRound` | iroh-dns-server/src/store/signed_packets.rs:437-488 | after a round nothing is left that had expired when it began, and nothing is lost that has not expired by its end |
| `PacketStore.EveryRun` | iroh-dns-server/src/store/signed_packets.rs:149-254 | in every interleaving of upserts, scans of any snapshot and queued checks the tables stay consistent, and an unexpired packet is only replaced by one at least as recent |
| `PacketStore.ScanIsThorough` | iroh-dns-server/src/store/signed_packets.rs:437-488 | once the checks queued with a scan of the whole index are done, whatever came in between, no packet and no index entry is left that had expired at the scan, unless it was published since |
| `PacketStore.NewestWins` | iroh-dns-server/src/store/signed_packets.rs:161-195 | after any publications exactly the published keys are stored, each with the most recent packet published for it |
| `PacketStore.Convergence` | iroh-dns-server/src/store.rs:181-195 | stores given the same packets in any order and repetition hold the same timestamp and payload for every key |
| `ZoneRecords.GroupRecords` | iroh-dns-server/src/util.rs:101-146 | the loop computes, under every name and type, the distinct records of the zone with that key |
| `ZoneRecords.ZoneOfGroups` | iroh-dns-server/src/util.rs:101-146 | adding the records one at a time gives the grouping of all of them |
| `ZoneRecords.SameExactly` | iroh-dns-server/src/util.rs:131-143 | two records are one exactly when they differ in nothing but the case of their names |
| `ZoneRecords.KeptExactly` | iroh-dns-server/src/util.rs:101-131 | a record is grouped under a name and type exactly when it has the type, not SOA or NS, and its full name is that name in the zone, up to case |
| `ZoneRecords.CaseFolding` | iroh-dns-server/src/util.rs:131-131 | names are compared up to the case of ASCII letters, and no further |
| `ZoneRecords.LookupMeansFilter` | iroh-dns-server/src/store.rs:329-333 | looking up a name and type finds a set exactly when an answer under the key's zone has them, and the set is not empty and holds the type, time to live and data of exactly those answers, none twice, never SOA or NS |
| `ZoneRecords.SetsArePieces` | iroh-dns-server/src/util.rs:101-146 | the record sets are the pieces of the list of distinct records: none is lost or counted twice |
| `ZoneRecords.SetsAddUp` | iroh-dns-server/src/util.rs:101-146 | the record sets of a zone hold together as many records as it has distinct ones |
| `ZoneRecords.AppendOrigin` | iroh-dns-server/src/util.rs:148-162 | appending an origin fails exactly when the name gets too long, and otherwise renames the set and its records |
| `ZoneRecords.EncodedLengthOfSum` | iroh-dns-server/src/util.rs:148-162 | the length of a name counts every label, a byte for each, and one for the end |
| `ZoneRecords.ZoneSetsHaveOneKey` | iroh-dns-server/src/util.rs:101-146 | all records of a set of a zone have the key of the set and differ from each other |
| `ZoneRecords.AppendOnlyRenames` | iroh-dns-server/src/util.rs:148-162 | for such a set renaming merges no records |
| `ZoneRecords.StripThenAppend` | iroh-dns-server/src/util.rs:101-162 | appending the zone label gives back the name a record had in the packet, up to case |
| `ZoneCache.ZoneStore.constructor` | iroh-dns-server/src/store.rs:87-95 | starts with empty caches, in agreement with the packet store |
| `ZoneCache.PacketAnswerMeans` | iroh-dns-server/src/store.rs:316-333 | a packet answers a query exactly when one of its records has the type, not SOA or NS, and the name in the key's zone, up to case; with the data of all such records, nothing else and nothing twice |
| `ZoneCache.PacketAnswerFails` | iroh-dns-server/src/store.rs:316-323 | it fails exactly when the packet cannot be decoded, and its zone has the timestamp of the packet |
| `ZoneCache.FillAnswerMeans` | iroh-dns-server/src/store.rs:251-297 | filling the cache answers as the packet does, unless a strictly newer zone is cached, and then as that |
| `ZoneCache.ZoneStore.Insert` | iroh-dns-server/src/store.rs:181-195 | upserts and, if that updated, removes the key from both caches; caches and store still agree |
| `ZoneCache.ZoneStore.Expire` | iroh-dns-server/src/store/signed_packets.rs:217-251 | expiry in the packet store leaves the caches valid: a cached zone is that of the packet last held |
| `ZoneCache.ZoneStore.Drop` | iroh-dns-server/src/store.rs:210-231 | dropping any entries from the caches keeps agreement |
| `ZoneCache.ZoneStore.InsertIntoCache` | iroh-dns-server/src/store.rs:278-297 | fills in the zone of a packet unless a newer one is cached, and fails exactly when the packet cannot be decoded and is needed |
| `ZoneCache.ZoneStore.Resolve` | iroh-dns-server/src/store.rs:99-163 | for a stored key the answer is that of the stored packet whatever the caches hold; for others that of a cache, else of the DHT; and exactly what the caches hold afterwards |
| `ZoneCacheRaces.RunKeepsInv` | iroh-dns-server/src/store.rs:99-195 | every interleaving of the locked phases keeps the invariant on store, caches and calls |
| `ZoneCacheRaces.CachedZonesComeFromTheStore` | iroh-dns-server/src/store.rs:99-195 | whatever overlaps, a cached zone is that of a packet the store held for the key, not newer than the stored one unless a packet of the key has expired |
| `ZoneCacheRaces.AnswersComeFromPackets` | iroh-dns-server/src/store.rs:99-163 | whatever overlaps, a query is answered as a packet alone would answer it that the store held or the DHT returned for the key, and with nothing only if it came upon none |
| `ZoneCacheRaces.CachedTimesNeverGoBack` | iroh-dns-server/src/store.rs:278-306 | while a key stays cached the timestamp of its zone does not decrease |
| `ZoneCacheRaces.StalenessExactly` | iroh-dns-server/src/store.rs:107-190 | from agreement, a step makes cache and store come apart exactly when a query fills in a packet that is not stored any more, with no removal due, or a cached packet expires |
| `ZoneCacheRaces.OutdatedMeansReplaced` | iroh-dns-server/src/store.rs:107-190 | such a packet, unless one of its key has expired, was replaced by a more recent one |
| `ZoneCacheRaces.ShadowingExactly` | iroh-dns-server/src/store.rs:141-190 | from agreement, a step makes the DHT cache hold a stored key exactly when a query fills in a DHT packet of a key that is stored by then, with no removal due |
| `ZoneCacheRaces.RunsAgreeExactly` | iroh-dns-server/src/store.rs:99-195 | in a run from the empty state both caches agree with the store on a key throughout exactly if no such step occurs |
| `ZoneCacheRaces.StaleRun` | iroh-dns-server/src/store.rs:107-190 | a concrete run after which the cache keeps the replaced zone |
| `ZoneCacheRaces.DhtShadowsStoreRun` | iroh-dns-server/src/store.rs:141-163 | a concrete run after which a stored key is answered from the DHT cache |
| `TxtAttrs.FromParts` | iroh-dns/src/attrs.rs:104-113 | the map has exactly the keys that occur, each with its values in order |
| `TxtAttrs.PairOfMeans` | iroh-dns/src/attrs.rs:116-134 | a string is read as the key before its first `=` and the value up to the next; each error has its exact cause |
| `TxtAttrs.FromStrings` | iroh-dns/src/attrs.rs:116-134 | succeeds exactly when every string parses, and otherwise reports the first that does not |
| `TxtAttrs.PrintedParses` | iroh-dns/src/attrs.rs:104-174 | printed attributes always parse, to the same keys with every value cut at its first `=`, in whatever order keys are printed |
| `TxtAttrs.RoundTripIsIdentityExactly` | iroh-dns/src/attrs.rs:104-174 | printing and parsing is the identity exactly when no value contains `=` |
| `TxtAttrs.ValueIsCut` | iroh-dns/src/attrs.rs:116-134 | the value of `k=a=b` is read as `a` |
| `TxtAttrs.TextKeysRoundTripExactly` | iroh-dns/src/attrs.rs:104-174 | with text for keys it is the identity exactly when neither keys nor values contain `=` |
| `TxtAttrs.TxtNameRoundTrip` | iroh-dns/src/attrs.rs:58-73 | the id is read back from the record name it is published under, whatever the origin |
| `TxtAttrs.TxtNameMeans` | iroh-dns/src/attrs.rs:58-73 | a name is read exactly by its first two labels, with each error for its own cause |
| `EndpointInfo.Dedup` | iroh-dns/src/endpoint_info.rs:78-83 | keeps the first occurrence of every element, in order, and returns the set of them |
| `EndpointInfo.FirstOccurrencesOrder` | iroh-dns/src/endpoint_info.rs:78-83 | what is kept is in the order of the first occurrences |
| `EndpointInfo.EndpointData.constructor` | iroh-dns/src/endpoint_info.rs:92-98 | holds the given addresses without duplicates, and no user data |
| `EndpointInfo.EndpointData.AddAddrs` | iroh-dns/src/endpoint_info.rs:124-132 | holds what deduplicating the old and the new addresses together gives |
| `EndpointInfo.EndpointData.AddRelayUrl` | iroh-dns/src/endpoint_info.rs:111-116 | adds the relay at the end unless it is there |
| `EndpointInfo.InfoToAttrs` | iroh-dns/src/endpoint_info.rs:486-501 | the attributes group relays, other addresses and user data, each in order |
| `EndpointInfo.InfoFromAttrs` | iroh-dns/src/endpoint_info.rs:504-540 | holds the parsable relays, then the parsable other addresses, without duplicates, and the first user data unless too long |
| `EndpointInfo.ValueMeans` | iroh-dns/src/endpoint_info.rs:504-540 | what a value is read as: a URL, a socket address, a custom address or nothing |
| `EndpointInfo.FilterMapMeans` | iroh-dns/src/endpoint_info.rs:504-540 | values that do not parse are left out and the others stay in order |
| `EndpointInfo.UserDataMeans` | iroh-dns/src/endpoint_info.rs:529-534 | the first user data counts, if it has at most 245 bytes, and no other one |
| `EndpointInfo.Utf8LenMeans` | iroh-dns/src/endpoint_info.rs:332-339 | lengths are in bytes of UTF-8, section 3 of RFC 3629 |
| `EndpointInfo.ParseAttrExactly` | iroh-dns/src/attrs.rs:81-89 | the three keys in kebab case are the only ones |
| `EndpointInfo.AttrsRoundTrip` | iroh-dns/src/endpoint_info.rs:486-540 | to attributes and back keeps the user data and the addresses, with the relays moved to the front |
| `EndpointInfo.RelaysFirstLaws` | iroh-dns/src/endpoint_info.rs:486-540 | moving the relays to the front loses and repeats nothing, is the identity exactly when they are in front, and does nothing the second time |
| `EndpointInfo.TextUserData` | iroh-dns/src/endpoint_info.rs:454-482 | through the TXT strings user data is cut at its first `=` |
| `EndpointInfo.TextAddrsCut` | iroh-dns/src/endpoint_info.rs:454-482 | through the TXT strings relay URLs are parsed from what comes before their first `=`, and all other addresses survive |
| `EndpointInfo.TextAddrs` | iroh-dns/src/endpoint_info.rs:454-482 | through the TXT strings addresses survive, relays in front, if no relay URL contains `=` |
| `EndpointInfo.TextRoundTripExactly` | iroh-dns/src/endpoint_info.rs:454-540 | an endpoint survives the TXT strings exactly when its relays come first and neither they nor its user data contain `=`, for URL parsers that find no `=` in what is left of a canonical URL cut at its first one |
| `CustomAddr.CopyFromSlice` | iroh-base/src/endpoint_addr.rs:276-287 | the representation holds the data, inline and zero-padded up to 30 bytes and as it is beyond |
| `CustomAddr.FromParts` | iroh-base/src/endpoint_addr.rs:292-297 | the address is well formed and has the given id and data |
| `CustomAddr.EqualIffSameParts` | iroh-base/src/endpoint_addr.rs:235-297 | representations are equal exactly when id and data are, and each is the one `from_parts` builds |
| `CustomAddr.ToVec` | iroh-base/src/endpoint_addr.rs:323-328 | the filled buffer is the little-endian id and the data |
| `CustomAddr.FromBytes` | iroh-base/src/endpoint_addr.rs:333-340 | succeeds exactly for eight bytes or more, with a well-formed address |
| `CustomAddr.DecodeEncoded` | iroh-base/src/endpoint_addr.rs:323-340 | decoding an encoded address gives it back |
| `CustomAddr.EncodeDecoded` | iroh-base/src/endpoint_addr.rs:323-340 | encoding a decoded byte string of eight bytes or more gives it back |
| `CustomAddr.ParsePrinted` | iroh-base/src/endpoint_addr.rs:193-214 | parsing a printed address gives it back, for every id and data |
| `CustomAddr.ParseMeans` | iroh-base/src/endpoint_addr.rs:199-214 | a text is split at its first separator, and each error is reported exactly for its own part |
| `CustomAddr.ParseIdMeans` | iroh-base/src/endpoint_addr.rs:199-214 | digits in either case, with or without a plus sign, are read as the number they stand for if that fits 64 bits |
| `CustomAddr.ParseIdOnly` | iroh-base/src/endpoint_addr.rs:199-214 | and nothing else is an id |
| `CustomAddr.PrintParsed` | iroh-base/src/endpoint_addr.rs:193-214 | printing a parsed text gives it back exactly when its id is in lower case without sign or leading zero |
| `TunnelFrames.CompressAndForward` | iroh/examples/tunnel-send.rs:259-281 | the loop writes one frame for each read, in order |
| `TunnelFrames.DecompressAndForward` | iroh/examples/tunnel-send.rs:284-307 | the loop delivers and ends as the recursive decoder does, on any input, also when reading fails after it |
| `TunnelFrames.FailedRead` | iroh/examples/tunnel-send.rs:284-307 | when reading fails the same bytes are delivered, and it is neither taken for the end nor for a cut |
| `TunnelFrames.DecodeFrames` | iroh/examples/tunnel-listen.rs:270-318 | frames decode to the bytes read, and whatever follows them is decoded after that |
| `TunnelFrames.StreamIsPreserved` | iroh/examples/tunnel-listen.rs:270-318 | for every stream and every chunking, decoding the frames gives the bytes back and a clean end |
| `TunnelFrames.EveryCut` | iroh/examples/tunnel-listen.rs:295-318 | every cut of the frames has some number of complete frames before it |
| `TunnelFrames.CutStream` | iroh/examples/tunnel-listen.rs:295-318 | a cut stream delivers exactly its complete frames, and ends cleanly between frames and inside a length, with an error inside a body |
| `TunnelFrames.PrefixDeliversPrefix` | iroh/examples/tunnel-listen.rs:295-318 | for arbitrary bytes, a prefix delivers a prefix |
| `TunnelSession.RunKeepsInv` | iroh/examples/tunnel-send.rs:104-129 | every interleaving of calls keeps lock, cell and calls consistent |
| `TunnelSession.ConnectionsAreAccountedFor` | iroh/examples/tunnel-send.rs:104-129 | connections made are those taken out by invalidations plus the one in the cell, so at most one more than invalidations |
| `TunnelSession.OneConnectAtATime` | iroh/examples/tunnel-send.rs:113-122 | at most one call is connecting, and only while the cell is empty |
| `TunnelSession.ReturnedUnderTheLock` | iroh/examples/tunnel-send.rs:105-122 | a returned connection is the content of the cell, and the call held the lock when it took it |
| `TunnelSession.SameConnectionUntilInvalidated` | iroh/examples/tunnel-send.rs:104-129 | without an invalidation in between, later calls return the same connection |
| `TunnelSession.DropsAnotherExactly` | iroh/examples/tunnel-send.rs:124-128 | in every run an invalidation drops a connection other than the reported one exactly when there is one and the reported one was dropped before, and never an older one |
| `TunnelSession.InvalidationDropsANewerConnection` | iroh/examples/tunnel-send.rs:124-128 | a concrete run in which reporting an old connection drops a newer one |
| `TunnelSession.OpenStreams` | iroh/examples/tunnel-send.rs:202-237 | succeeds exactly when one of ten attempts does, at the first that does, with the errors, waits and invalidations of the code |
| `TunnelSession.TotalDelay` | iroh/examples/tunnel-send.rs:235-236 | the time waited after any number of attempts in closed form, 11.1 seconds before giving up |
| `AuthTask.OutgoingAuthTask.constructor` | iroh/examples/auth-hook.rs:197-203 | starts with nothing allowed, pending or running |
| `AuthTask.OutgoingAuthTask.HandleMsg` | iroh/examples/auth-hook.rs:228-252 | grants at once, joins the waiting list, or spawns the one task, as specified |
| `AuthTask.OutgoingAuthTask.HandleTask` | iroh/examples/auth-hook.rs:254-262 | answers every waiting request with the result, in order, and allows the remote on success |
| `AuthTask.OutgoingAuthTask.Run` | iroh/examples/auth-hook.rs:210-226 | the event loop ends in the state the run of the state machine ends in |
| `AuthTask.RunKeepsInv` | iroh/examples/auth-hook.rs:210-262 | every run keeps the invariant on tasks, waiting lists and replies |
| `AuthTask.SingleFlight` | iroh/examples/auth-hook.rs:210-262 | a pending remote has exactly one task and is not allowed, others have none, and tasks spawned are the failed ones plus the running or successful one |
| `AuthTask.AnsweredOnceOrWaiting` | iroh/examples/auth-hook.rs:210-262 | every request is answered once, or waits once, in the list of its own remote |
| `AuthTask.NothingWaitsWhenIdle` | iroh/examples/auth-hook.rs:210-262 | when no task runs every request has been answered |
| `AuthTask.AnswersAreEarned` | iroh/examples/auth-hook.rs:210-262 | every answer is the result some task for that remote had |
| `AuthTask.AllowedIsFinal` | iroh/examples/auth-hook.rs:210-262 | an allowed remote stays allowed and is never authenticated again |
| `AddressLookup.ApplyFilter` | iroh-dns/src/endpoint_info.rs:190-199 | filtering keeps the user data, and the addresses are those given or exactly those the filter returned, without duplicates |
| `AddressLookup.OutgoingMeans` | iroh/src/address_lookup.rs:517-521 | without a filter data is published as it is, with one the user data is kept and the addresses are exactly what the filter returns |
| `AddressLookup.AddressLookupServices.AddBoxed` | iroh/src/address_lookup.rs:490-498 | gives the new service the data published last and appends it |
| `AddressLookup.AddressLookupServices.PublishToAll` | iroh/src/address_lookup.rs:517-531 | gives every service the filtered data, and remembers it |
| `AddressLookup.ServicesStayUpToDate` | iroh/src/address_lookup.rs:476-531 | after any calls every service was last given the last publication, filtered as the filter was then |
| `AddressLookup.ServiceReceivesAll` | iroh/src/address_lookup.rs:476-531 | a service that stays registered is given every publication once, in order |
| `AddressLookup.AddedServiceGets` | iroh/src/address_lookup.rs:476-531 | a new service is given the last publication as filtered then, which is what the filter in force would give exactly when the two agree on it, and surely if none was set since |
| `AddressLookup.FilterSetTooLate` | iroh/src/address_lookup.rs:476-531 | a concrete registry, data and filter for which a new service is given what the filter would not let through |
| `AddressLookup.OverlappedAddIsUpToDateExactly` | iroh/src/address_lookup.rs:490-531 | a service added while other calls run is up to date exactly if they published nothing, or last what it was given |
| `AddressLookup.MissedPublication` | iroh/src/address_lookup.rs:490-531 | a concrete case in which the new service has nothing although something was published |
| `AddressLookupRaces.RunKeepsInv` | iroh/src/address_lookup.rs:476-531 | every interleaving of the locked phases of `publish`, `add`, `clear` and `set_addr_filter` keeps the links between services, publications and the last data |
| `AddressLookupRaces.InStepMeansUpToDate` | iroh/src/address_lookup.rs:476-531 | in every run, with no publication under way, a service in step was last given the last data |
| `AddressLookupRaces.OutOfStepExactly` | iroh/src/address_lookup.rs:476-531 | a step gets a service out of step exactly when a publication is written down that another one overtook at the service, with none under way that will settle it, or a service is appended that was handed over other data |
| `AddressLookupRaces.OvertakenBy` | iroh/src/address_lookup.rs:476-531 | the publication that overtook gave to the service later and was written down earlier |
| `AddressLookupRaces.RunsInStepExactly` | iroh/src/address_lookup.rs:476-531 | in a run from the empty registry all services are in step throughout exactly if no such step occurs |
| `AddressLookupRaces.FilterIsPassed` | iroh/src/address_lookup.rs:517-531 | with a filter set first and not changed, the last data and all that services were given last has been through it, whatever overlaps |
| `AddressLookupRaces.OvertakenRun` | iroh/src/address_lookup.rs:476-531 | a concrete run after which the service was last given one publication and the last data is the other |
| `AddressLookup.AddressLookupStream.constructor` | iroh/src/address_lookup.rs:590-606 | a new stream will yield exactly the specified output |
| `AddressLookup.AddressLookupStream.PollNext` | iroh/src/address_lookup.rs:612-648 | a poll yields the first of the remaining output, waits without changing it, or ends exactly when it is empty, and stays ended |
| `AddressLookup.PollMany` | iroh/src/address_lookup.rs:612-648 | any polls, waiting or not, yield a prefix of the output and leave the rest |
| `AddressLookup.FailureExactly` | iroh/src/address_lookup.rs:612-648 | without services there is one failure that says so; with services all events are forwarded in order, then a failure exactly when no item was among them, carrying exactly the forwarded errors |

## Left out

- Relay client and server, QUIC, sockets, the endpoint builder, HTTP routes, configuration, command lines, metrics and logging: input and output around the modelled logic.
- Fairness and timing of the async runtime: completions, timers and lock hand-over are arbitrary steps, so nothing is said about how soon something happens.
- `PingTracker`, `KeyCache`, `add_jitter`, `RelayMap`, staggered lookups, access lists: a timer, a bounded cache, a random delay, a keyed map, repeated calls and membership tests, each self-contained.
- Cryptography, z-base-32, URL and socket address grammars, the DNS wire format, LZ4: parameters with the laws named in `Sound` and `EndpointInfo.CutUrlsStayCut`.
- The incoming side of the auth hook, and its network exchange: only the state of the outgoing task is modelled.
- Batches and transactions of the packet store: messages take effect one at a time. A scan may see any snapshot, so its batch in `PacketStore.EveryRun` is any list of expired entries.
- Capacity and order of the LRU cache and the time limit of the DHT cache: caches may drop any entry at any time.
- Packet building from TXT records before the DNS packet is encoded: signing starts from the encoded packet.
- Clock.RunKeepsInv: the addition wraps around, as in a release build; the panic of a debug build after the largest 64-bit value is not modelled.
- TunnelFrames.CompressAndForward: reads may fail, but writes and the final shutdown of the stream succeed, and so they do in `TunnelFrames.DecompressAndForward`.
- PacketStore.Actor.EvictionRound: nothing comes between the scan and its checks; `PacketStore.ScanIsThorough` has the interleavings.
- ZoneRecords.GroupRecords: inserting into a record set is taken as appending a record that is not yet there; the rules of the DNS library for CNAME and SOA sets and for records that differ only in their time to live are not modelled.
- ZoneCache.ZoneStore.Resolve: the DHT is a parameter that holds at most one packet, and failures of the packet store are not modelled.
- AddressLookup.OverlappedAddIsUpToDateExactly: other calls come whole between the two parts of `add`; `AddressLookupRaces` has all interleavings.
- AddressLookup.AddressLookupStream.PollNext: the order in which the streams of the services are merged is given.
- AuthTask.OutgoingAuthTask.Run: the panics of a task are not modelled.
