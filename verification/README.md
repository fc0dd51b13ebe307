# Portillia: a verified model

Portillia is a reverse-tunnel relay. Relays find each other through signed descriptors, tenants
register leases under hostnames, SDK clients keep reverse sessions parked at a relay, and an
incoming TLS connection is routed by the server name in its ClientHello. This project models the
parts of it whose correctness spans many steps, and proves what they keep over every input, every
run or every reachable state.

`dafny verify dfyconfig.toml` checks everything. The modules, by subject:

- **Relay discovery set** - `RelayModel` (values and single steps of the two tables), `RelayRuns`
  (what every run keeps), `RelayOffers` (when offers are accepted, and what operations do to the records),
  `RelaySets` (the set as it is updated in place), `Mols`, `Ranking`, `Selection`, `SelectionFields`
  (Latin-square scores, ranking, routes and priority lists), `Order` (sorting, `strcmp`).
- **SNI parser** - `ClientHello` (message parser), `HelloEncoding` (encoder and inversion), `HelloGrammar` (the
  byte strings that name a host), `TlsStream` (record reassembly), `Fragmentation` (independence of fragmentation,
  peek stability), `StreamGrammar` (the streams that carry a message, and the answer to all others).
- **Reverse sessions** - `SessionModel` (protocol as a state machine), `ReadyList` (the linked ready
  list), `Markers` (the SDK's decoder).
- **Lease registry** - `LeaseModel`, `LeaseRuns`, `LeaseRegistries`, `LeaseFields`.
- **Exposure** - `ExposureModel`, `ExposureFields`, `ExposurePhases`, `ReconcilePhases`, `Listeners`, `Exposures` (relay lists,
  concurrent changes and listener reconciliation), `Modular`, `Polling` (fair discovery polling).
- **Datagrams and hops** - `Datagram`, `FrameQueues`, `HopChain`, `HopLifetime` (chains over time, full relays).
- **Canonical signed text** - `JsonText`, `FloatText`, `CanonicalText`, `FlatJson` (a reader of flat JSON objects).

`Wrappers` and `Sequences` hold what several of them share. The modules named after fields and grammars state what the
operations do to the bytes and record fields themselves, with the numbers of the program written out.

## How the model reads the program

- A run of the relay set, of a session stream or of a lease registry is a sequence of events, one for each
  lock-held region (for a discovery response, one for each descriptor in it), so every interleaving is some
  sequence. A change to an exposure is several regions: `ExposurePhases` and `ReconcilePhases` interleave those of
  concurrent changes, while `ExposureModel` and `Exposures` speak of a change that no other one comes into.
- The clock of the relay set is positive and does not run backwards from one event to the next; the
  announce handler, which passes 0 as the clock (`src/portal/api_server_relay.c`), is outside that assumption.
- `verify_relay_descriptor` is the field `signer` of a descriptor, the address that public key recovery
  yields. A descriptor is verified when that address is a wallet address and equals the claimed one up to case.
- URL buckets, polling weights, hop tokens, hostname hashes and the success of listener creation are
  arbitrary functions. Only `HopChain.InjectiveMacSuffices` assumes that the token hash has no
  collisions; `HopChain.ChainLeadsToExit` needs no more than distinct tokens along one path.
- A table walk meets the keys in an arbitrary order: the walking methods pick any pending key.
- Round-trip times are exact reals, and the test that the coefficient of variation exceeds 0.5 is
  written with both sides squared.
- Times, counters and sizes are unbounded integers, except where the program casts: the round counter of the
  polling loop is cast to a 32-bit int, and remainders take the sign of the dividend as in C.
  `Polling.SlotArithmeticFits` gives a range in which the slot arithmetic cannot overflow.
- An absent C string is an absent option or an empty string, and allocation always succeeds.
- A host name is the byte sequence the parser copies, including an embedded zero byte.
- `f64` values enter by their shortest round-trip digits and exponent, as the scientific format prints them.
- The `target_found` conjunct in `apply_discovery_response` is dropped: it always holds when the URL equals the target.

Where the code departs from its documentation, or from a property one would expect of it, the model follows the code:

- The `changed` flag of `apply_discovery_response` is raised when a descriptor is rejected, because the
  comparison with 0 is a comparison with `UPSERT_REJECTED`. `RelaySets.RelaySet.ApplyDiscoveryResponse` states that.
- `go_json_f64` is documented to print exponents with two digits; it prints as many as needed, -7 as `e-7`, and
  two exactly from 10 to 99 (`FloatText.ExponentWidth`).
- After a leading ChangeCipherSpec record, a peek that ends inside the next record header makes the stream
  parser give up instead of asking for more. `Fragmentation.PrefixAsksForMore` says exactly when,
  `Fragmentation.ChangeCipherSpecGap` is an instance.
- Normalising a server name is not idempotent: `ClientHello.NormalizeTwice` is an instance,
  `ClientHello.StableNames` the exact condition on the name and `ClientHello.FixedPoints` the set of fixed points.
- Concurrent changes to one relay can leave it both listed and banned: `ExposurePhases.AddAndRemoveCross` is an
  instance, `ExposurePhases.BannedAtRest` says exactly when, and `ExposurePhases.SerialIsSound` that changes which
  do not overlap never do.
- The slots of a polling round need not exist: from round 2^31 on the cast counter is negative, and with many
  relays the slot arithmetic overflows. `Polling.LateRoundFails` and `Polling.ManyRelaysFail` are instances,
  `Polling.SlotsOfRound` says exactly when, and `Polling.EarlyRoundsOk` that it takes 2^31 rounds or more than 46340 relays.
- Registering hop routes with POST can succeed and leave a route that leads nowhere, because a relay whose
  registry is full answers without storing. `HopChain.PostCanDangle` is an instance, `HopChain.PostLeavesSuffix` says
  exactly when, and `HopLifetime.RoomSuffices` that it takes a full relay.
- Withdrawing hop routes with DELETE goes on past failures from the entry side, so it can leave routes
  that lead nowhere; `HopChain.DeleteCanDangle` is an instance and
  `HopChain.DeleteLeavesSuffix` says exactly when it does not happen.

## Model

| member | source | states |
|---|---|---|
| RelayRuns.NoRollback | src/discovery/relay_set.c:261-364 | over every run with interleaved purges and stale-entry removal, the descriptors accepted for one identity have non-decreasing issue times |
| RelayRuns.GuardsPersist | src/discovery/relay_set.c:277-364 | once the index remembers an issue time, or everything older than it has outlived its maximum validity, one of the two holds at every later point of every run |
| RelayRuns.RunKeepsIndexOk | src/discovery/relay_set.c:333-345 | in every run each tombstone lies exactly 24 hours after the remembered issue time and is positive |
| RelayRuns.GuardsBlockOlder | src/discovery/relay_set.c:277-303 | a guarded identity cannot have an older descriptor accepted, with or without an index entry |
| RelayRuns.ReachableInv | src/discovery/relay_set.c:277-364 | in every reachable state the index dominates the table: a stored descriptor is no newer than its index entry, or older than 24 hours at the clock; records sit under their own URL |
| RelayRuns.OfferCovers | src/discovery/relay_set.c:277-348 | an accepted or ignored offer leaves at its URL an unexpired descriptor of the same identity that is at least as new |
| RelayRuns.ExecAtUrl | src/discovery/relay_set.c:277-499 | what any single operation can do to the record of one URL: keep descriptor and sighting, drop a never-seen record, create a blank one, or store an accepted offer |
| RelayRuns.OwnershipChange | src/discovery/relay_set.c:307-322 | in every run the identity stored for a URL changes only through an offer for that URL, made when the old descriptor had expired or with takeover rights |
| RelayRuns.ResponseKeepsOwner | src/discovery/relay_set.c:876-937 | a whole response, from any tables, leaves the owner of every unexpired URL in place, unless that URL itself answered without a version mismatch: takeover rights go to no other descriptor |
| RelayRuns.BansAreSticky | src/discovery/relay_set.c:423-467 | over any run a banned URL stays banned unless it is allowed again, and an unbanned one stays unbanned unless it is banned |
| RelayOffers.OfferAcceptance | src/discovery/relay_set.c:261-348 | an offer is accepted exactly if the descriptor is signed, unexpired, at most 300 seconds from the future and valid for at most 24 hours, nothing newer of its identity is remembered that could still be valid, and its URL is free, its own, expired or answered by itself |
| RelayOffers.AcceptedExactly | src/discovery/relay_set.c:261-364 | the dual of no rollback: in every run an offer is accepted exactly if it is sound, at least as new as everything accepted for its identity before, and its URL is open to it |
| RelayOffers.OfferIgnored | src/discovery/relay_set.c:289-303 | a sound offer is ignored exactly if something newer is remembered while its URL holds an unexpired descriptor of the identity at least as new |
| RelayOffers.ResponseAcceptance | src/discovery/relay_set.c:876-937 | in a response, the relay that answers for its own URL without a version mismatch needs no open URL, and every other descriptor does |
| RelayOffers.OfferOnRelays | src/discovery/relay_set.c:900-931 | an accepted offer stores descriptor and sighting under its URL with the telemetry of that URL and touches no other record; any other offer touches none |
| RelayOffers.AcceptedOnIndex | src/discovery/relay_set.c:333-345 | an accepted offer raises the entry of its identity, which expires 24 hours after the newest issue time, and touches no other |
| RelayOffers.RejectedOnIndex | src/discovery/relay_set.c:284-304 | any other offer at most forgets an entry whose 24 hours have passed |
| RelayOffers.PurgeEffect | src/discovery/relay_set.c:352-364 | a purge removes exactly the entries whose tombstone is set and has passed |
| RelayOffers.FlagEffects | src/discovery/relay_set.c:406-467 | ban, allow and bootstrap set their one flag, on a record without telemetry if there is none |
| RelayOffers.ClearBootstrapEffect | src/discovery/relay_set.c:390-401 | clearing the bootstrap URLs drops that flag everywhere and changes nothing else |
| RelayOffers.RemoveBootstrapEffect | src/discovery/relay_set.c:423-434 | giving up a bootstrap URL keeps its record exactly if it was seen, is banned, or has a failure, a refresh or a suppression on it |
| RelayOffers.VerifiedMeaning | src/discovery/relay_set.c:243-250 | a descriptor verifies exactly if the recovered wallet address is the claimed one up to letter case |
| RelayOffers.SameIdentity | src/discovery/relay_set.c:90-104 | two verified descriptors have one identity exactly if their addresses agree up to letter case |
| RelayModel.VerifiedIdentity | src/discovery/relay_set.c:90-104 | a descriptor that verifies is filed under the lower-cased recovered address, never under the empty key, so trimming cannot alias identities |
| RelaySets.RelaySet.Upsert | src/discovery/relay_set.c:277-348 | the in-place upsert returns the verdict and leaves the two tables that the step model prescribes, including the removal of a stale entry on a rejected takeover |
| RelaySets.RelaySet.EnforceCap | src/discovery/relay_set.c:352-364 | walking the index in any order, exactly the entries whose tombstone has passed are removed and no table entry changes |
| RelaySets.RelaySet.MakeRecord | src/discovery/relay_set.c:903-925 | the offered record carries over the local telemetry of its URL, reset for the answering relay itself |
| RelaySets.RelaySet.ApplyDiscoveryResponse | src/discovery/relay_set.c:876-937 | applying a response is the run of its offers in order, and the changed flag is raised exactly when some admissible descriptor was rejected |
| RelaySets.RelaySet.InsertAnnounced | src/discovery/relay_set.c:939-988 | an announcement is an offer without takeover rights followed, on acceptance, by a purge; success is answered exactly when it was not rejected, and then the URL is covered |
| RelaySets.RelaySet.ClearBootstrap | src/discovery/relay_set.c:390-401 | clears the bootstrap flag of every record and nothing else, in any iteration order |
| RelaySets.RelaySet.AddBootstrapUrl | src/discovery/relay_set.c:406-421 | is the AddBootstrap step of the run model |
| RelaySets.RelaySet.RemoveBootstrapUrl | src/discovery/relay_set.c:423-434 | is the RemoveBootstrap step: the record goes only if nothing is known about it, so a ban survives |
| RelaySets.RelaySet.BanUrl | src/discovery/relay_set.c:436-451 | is the Ban step of the run model |
| RelaySets.RelaySet.AllowUrl | src/discovery/relay_set.c:453-467 | is the Allow step of the run model |
| RelaySets.RelaySet.PriorityRelays | src/discovery/relay_set.c:639-719 | returns every eligible explicit relay once, then the nearest automatic relays up to the cap, in order of round-trip time; no relay in it is banned |
| RelaySets.RelaySet.PriorityMultiHop | src/discovery/relay_set.c:721-765 | whatever order the table is walked in, the answer is a route in the sense of the selection model, and empty for depth one or less |
| RelaySets.NearestFirst | src/discovery/relay_set.c:563-571 | sorting by round-trip time alone lists each candidate once and nearest first, although that comparison has ties |
| Selection.RouteIsCanonical | src/discovery/relay_set.c:591-629 | every table iteration order and every sort yield the same multi-hop route |
| Selection.RouteIsTop | src/discovery/relay_set.c:721-765 | a route has min(depth, pool) relays, all different, eligible and not banned, listed best first, and each beats every eligible relay left out |
| Selection.RankedIsStandings | src/discovery/relay_set.c:591-629 | the ranking lists every eligible relay once, each strictly before the ones it beats |
| Selection.SlowRelaysLast | src/discovery/relay_set.c:573-589 | a relay slower than the fallback threshold is chosen over another only if that one is slow too; within a class the higher score wins |
| SelectionFields.RouteOnFields | src/discovery/relay_set.c:721-765 | every relay of a route is unbanned, not set aside, seen, unexpired, an overlay peer and has the ports asked for; and the route has min(depth, number of such relays) of them |
| SelectionFields.RouteInOrder | src/discovery/relay_set.c:573-589 | a route is ordered, and goes before all usable relays left out: fast before slow, then by score, confirmation, distance and URL |
| SelectionFields.CompetitorMeaning | src/discovery/relay_set.c:591-629 | a relay is slow above 2000 ms and scores in the row of the client address, 127.0.0.1 if there is none |
| SelectionFields.PriorityOnFields | src/discovery/relay_set.c:639-719 | which explicit and automatic relays a priority list holds, by the fields of their records, in which order, and how many: up to the limit of the client, or 4 |
| SelectionFields.UnitRow | src/discovery/relay_set.c:162-166 | the scores of the first cell of the unit row for both multiplier pairs |
| SelectionFields.Reduction | src/discovery/relay_set.c:146-160 | the field product reduces x^6 to x + 1 |
| SelectionFields.UnevenPair | src/discovery/relay_set.c:595-618 | two measured relays are uneven exactly if one is more than three times as far as the other |
| SelectionFields.UnmeasuredIgnored | src/discovery/relay_set.c:595-618 | a relay that was never measured does not change whether a pool is uneven |
| Ranking.CmpMolsIsTotalOrder | src/discovery/relay_set.c:573-589 | the ranking comparison is a total order under which different entries never compare equal |
| Ranking.RankingIsCanonical | src/discovery/relay_set.c:591-629 | two rankings of the same pool collected in different orders are equal |
| Ranking.UnevenIgnoresOrder | src/discovery/relay_set.c:595-618 | the choice of multipliers does not depend on the order in which the pool is summed up |
| Ranking.MeasurePool | src/discovery/relay_set.c:595-618 | the two summing loops compute the mean and the unevenness test of the pool |
| Ranking.ScoreEntry | src/discovery/relay_set.c:619-627 | the score is that of the plain square whether or not the pool is congested |
| Ranking.RankPool | src/discovery/relay_set.c:591-629 | the result is a rearrangement of the scored pool, sorted by the ranking comparison |
| Mols.Gf64Mul | src/discovery/relay_set.c:146-160 | for any two bytes, the masking and shift-and-reduce loop compute the product of their low six bits in GF(64), a sum of shifted copies reduced by x^6 + x + 1 |
| Mols.ProductDistributes | src/discovery/relay_set.c:146-160 | the product distributes over exclusive or in its first factor |
| Mols.ProductDistributesRight | src/discovery/relay_set.c:146-160 | the product distributes over exclusive or in its second factor |
| Mols.NoKernel | src/discovery/relay_set.c:137-141 | multiplication by the sum of either multiplier pair maps only zero to zero |
| Mols.CongestionCancels | src/discovery/relay_set.c:168-170 | the congestion score equals the plain score for all rows, columns and multipliers |
| Mols.ColumnComplement | src/discovery/relay_set.c:168-170 | the column 63 - j is the bitwise complement of j |
| Mols.ScoreCollision | src/discovery/relay_set.c:162-166 | two URLs score alike in a row exactly when their buckets are the same |
| Mols.ScoreDeterminesCell | src/discovery/relay_set.c:162-166 | the two squares are orthogonal for both multiplier pairs: a score determines row and column |
| Order.SortedIsUnique | src/discovery/relay_set.c:628-628 | under a total order a multiset has only one sorted arrangement, so the unstable sort is no source of variation |
| Order.StrcmpTotal | src/discovery/relay_set.c:588-588 | string comparison is antisymmetric and zero exactly on equal strings |
| Order.StrcmpMeaning | src/discovery/relay_set.c:588-588 | string comparison is negative exactly if the first string is a proper prefix of the second or has the smaller character where they first differ |
| ClientHello.NormalizeServerName | src/portal/sni_parser.c:31-59 | moving both ends inwards and lower-casing computes the normalised name |
| ClientHello.NormalizeMeaning | src/portal/sni_parser.c:31-59 | byte by byte: behind all leading blanks (bytes 9 to 13 and 32), up to the dots left once all trailing blanks are gone, bytes 65 to 90 grow by 32 and every other byte stays; there is no normal form exactly if nothing is left |
| ClientHello.FixedPoints | src/portal/sni_parser.c:31-59 | the fixed points of normalisation are exactly the non-empty lower-case names without spaces at either end and without a trailing dot |
| ClientHello.StableNames | src/portal/sni_parser.c:31-59 | normalising twice is normalising once exactly when the byte before the trailing dots and spaces of the name is no space |
| ClientHello.EndIsUnique | src/portal/sni_parser.c:31-59 | the place before the trailing dots and spaces is determined by the name |
| ClientHello.NameEnds | src/portal/sni_parser.c:31-59 | every name that has a normal form has such a place |
| ClientHello.NormalizeTwice | src/portal/sni_parser.c:31-59 | an input on which normalising twice differs from normalising once |
| ClientHello.ParseServerNameExtension | src/portal/sni_parser.c:61-86 | on arbitrary bytes, stays in bounds, terminates and returns the first host name entry of the list |
| ClientHello.ParseExtensions | src/portal/sni_parser.c:139-164 | walks the extensions in place and returns the first server name that is not empty |
| ClientHello.ParseClientHelloRecord | src/portal/sni_parser.c:88-165 | on arbitrary bytes, stays in bounds, terminates and returns what the field-by-field reading of the message yields |
| HelloEncoding.ParserInvertsEncoder | src/portal/sni_parser.c:88-165 | for every well-formed ClientHello with any extensions and any trailing bytes, the result is the normalised host name of the first server_name extension that has one, else none |
| HelloEncoding.NamesInverted | src/portal/sni_parser.c:61-86 | reading an encoded server name list gives the first entry of type host_name, normalised |
| HelloEncoding.ExtensionsInverted | src/portal/sni_parser.c:139-164 | reading an encoded extension list skips other extensions and server_name extensions without a name |
| HelloGrammar.NamesExactly | src/portal/sni_parser.c:61-86 | on arbitrary bytes, a list names a host exactly if it is well-formed up to its first entry of type 0 and that one has a normal form |
| HelloGrammar.ContentExactly | src/portal/sni_parser.c:61-86 | the same for the content of a server_name extension |
| HelloGrammar.BlockExactly | src/portal/sni_parser.c:139-164 | on arbitrary bytes, an extension block names a host exactly if it is well-formed up to the first server_name extension that names one |
| HelloGrammar.MessageExactly | src/portal/sni_parser.c:88-165 | on arbitrary bytes, the parser finds a host exactly in those that have the fields of a ClientHello up to an extension block that names it, with anything behind |
| StreamGrammar.FirstVerdict | src/portal/sni_parser.c:187-232 | what a first record decides, by its type, its length and the four bytes of the handshake header |
| StreamGrammar.NextVerdict | src/portal/sni_parser.c:187-244 | what a further record decides once a message is under way |
| StreamGrammar.AnswerByRecord | src/portal/sni_parser.c:176-256 | the answer to any stream: without a whole record at its front the parser stops, asking for more exactly if a record is cut, a message is under way or a header does not fit; else the record decides |
| StreamGrammar.StreamExactly | src/portal/sni_parser.c:167-256 | on arbitrary bytes, a message is assembled exactly if the stream is ChangeCipherSpec records, then records whose handshake bytes start with it, the first holding its header, then anything |
| TlsStream.Assemble | src/portal/sni_parser.c:167-256 | the record loop over a growing message buffer finds exactly what the record-by-record reading of the stream finds |
| TlsStream.Absorb | src/portal/sni_parser.c:203-247 | copying into the message buffer, first fragment or later, collects exactly the bytes the message still lacks |
| TlsStream.ParseClientHelloStream | src/portal/sni_parser.c:167-256 | on arbitrary bytes, stays in bounds and returns host and need-more flag of the stream reading |
| Fragmentation.FragmentationIndependence | src/portal/sni_parser.c:167-256 | for every ClientHello up to 2^20 bytes, every split into records whose first fragment has 4 bytes, other records in between, leading ChangeCipherSpec records and any trailing bytes, the stream parser returns what the message parser returns on the whole message |
| Fragmentation.PrefixAsksForMore | src/portal/sni_parser.c:167-256 | every prefix that ends before the completing record asks for more, except exactly those that end within the header after a leading ChangeCipherSpec; without one there is no exception |
| Fragmentation.ChangeCipherSpecGap | src/portal/sni_parser.c:187-195 | a stream of one ChangeCipherSpec record makes the parser give up |
| Fragmentation.MessageIsStable | src/portal/sni_parser.c:167-256 | once a message is complete, no further bytes change it |
| Fragmentation.HostIsStable | src/portal/sni_parser.c:167-256 | once a host name is returned, every longer stream gives the same result |
| Fragmentation.PeekingFindsHost | src/portal/sni_parser.c:259-314 | whatever the sizes of the peeks and with any leading ChangeCipherSpec records, the peek loop answers with the host of the message, or with nothing exactly if a peek before the completing one ended in the gap |
| Fragmentation.ClientRoutedByName | src/portal/sni_parser.c:259-314 | end to end: however its ClientHello is cut into records and peeked at, a client is routed by the host name it encoded, or dropped if a peek ended in the gap, which needs a leading ChangeCipherSpec |
| SessionModel.ReachableInv | src/portal/server.c:94-255 | in every interleaving the queue holds at most 8 sessions, each offered session is in exactly one of queued, in claim, handed out once or closed once, and its bytes are keepalives, or keepalives and an activation frame, or a cut-off part of one |
| SessionModel.ExecConserves | src/portal/server.c:94-255 | every step moves sessions between places without losing or doubling one |
| SessionModel.InOnePlace | src/portal/server.c:94-255 | what conservation means for one session: the places exclude each other and nothing is handed out or closed twice |
| SessionModel.HandedWireIsFrozen | src/portal/server.c:122-163 | nothing is written to a session after it was handed out, in particular no keepalive |
| SessionModel.ActivationIsFinal | src/portal/server.c:208-255 | from a successful activation on, the session has received keepalives only, then the TLS marker and the 16 bytes of its binding |
| SessionModel.StepOnFields | src/portal/server.c:94-255 | what each step does to queue, claims, wires and counts: at most eight wait, first come first served; a tick adds one zero byte to each queued session it reaches; an activation writes the byte 2 and the binding |
| ReadyList.RelayStream.Offer | src/portal/server.c:176-202 | the linked list refines the queue: a session is appended, or closed when eight are waiting, and the count is the length |
| ReadyList.RelayStream.KeepaliveTick | src/portal/server.c:146-160 | one marker goes to every queued session, in order, and to no other |
| ReadyList.RelayStream.Pop | src/portal/server.c:221-230 | unlinks the session that has waited longest and moves it into the claim |
| ReadyList.RelayStream.FreeAll | src/portal/server.c:94-120 | closes every session still queued, once each |
| Markers.RunSession | src/transport/stream_client.c:215-331 | under any chunking of the reads, the marker loop ends as the decoding of the byte stream does |
| Markers.DecodeMeaning | src/transport/stream_client.c:215-331 | after zero bytes, a 2 and sixteen bytes activate TLS, a 1 activates raw traffic, any other byte is an error, and a stream that ends earlier is broken |
| Markers.PayloadAligned | src/transport/stream_client.c:215-272 | in every run, and whatever follows, the SDK consumes exactly the bytes the relay wrote to a handed-out session |
| Markers.NeverActivatedEarly | src/transport/stream_client.c:215-272 | a session that was not handed out is never taken for an active one, even if the relay gave up inside the activation frame |
| LeaseRuns.ReachableInv | src/portal/server.c:284-341 | in every run there are at most 1024 records, hostnames and hop tokens are unique, and each record is a lease with a stream and no next hop or a hop with next address and token and no hostname |
| LeaseRuns.LeaseLifetime | src/portal/server.c:284-437 | in every run a key has a live record exactly for the 300 seconds after its last registration |
| LeaseRuns.ExpiryFollowsGrant | src/portal/server.c:284-341 | every record expires 300 seconds after the last registration of its key, and is still there until then |
| LeaseRuns.NoGrantNoChange | src/portal/server.c:284-437 | no other operation moves the expiry of a key or removes its unexpired record |
| LeaseModel.SweptKeepsLive | src/portal/server.c:410-437 | the swap-remove sweep drops exactly the expired records and keeps every other one as often as it occurred |
| LeaseModel.SwapRemoveBag | src/portal/server.c:430-431 | overwriting a slot by the last record and shrinking removes that slot and nothing else |
| LeaseRegistries.WildcardMeaning | src/utils/network.c:48-59 | a pattern with a leading wildcard matches exactly the names that continue it by a non-empty beginning |
| LeaseFields.LookupOnFields | src/portal/server.c:356-393 | a lookup answers with an unexpired record of the hostname, else with one of its hash, else with one whose pattern matches, and with nothing only if there is none |
| LeaseFields.HopLookupOnFields | src/portal/server.c:395-408 | a hop lookup answers with the unexpired record of the token, if there is one |
| LeaseFields.RegisterOnFields | src/portal/server.c:264-317 | a banned or unapproved identity changes nothing; the record of the hostname is renewed for 300 seconds with what is given; else a record with a stream is appended, unless 1024 are there |
| LeaseFields.RegisterHopOnFields | src/portal/server.c:319-341 | the record of the token gets 300 more seconds and keeps its next hop; else one is appended, unless 1024 are there |
| LeaseFields.SweepOnFields | src/portal/server.c:410-437 | the sweep keeps a record exactly while its expiry lies in the future |
| LeaseFields.PatternMeaning | src/utils/network.c:48-59 | a pattern with a leading star matches what continues it by a non-empty beginning, any other only itself |
| LeaseRegistries.LookupInRuns | src/portal/server.c:356-393 | in every run, a hostname is answered by its own lease exactly for 300 seconds after its last registration, and whatever answers has a stream and no next hop |
| LeaseRegistries.HopLookupInRuns | src/portal/server.c:395-408 | in every run, a hop token is answered exactly for 300 seconds after its last registration, always with a next hop |
| LeaseRegistries.LeaseRegistry.RegisterLease | src/portal/server.c:284-317 | the array update is the Register step: refresh, append or, when full or not allowed, nothing |
| LeaseRegistries.LeaseRegistry.RegisterHopRoute | src/portal/server.c:319-341 | the array update is the RegisterHop step |
| LeaseRegistries.LeaseRegistry.Janitor | src/portal/server.c:410-437 | the in-place loop that looks at a refilled slot again is the Sweep step |
| LeaseRegistries.LeaseRegistry.FindLease | src/portal/server.c:356-393 | the three scans compute the three-tier lookup |
| LeaseRegistries.LeaseRegistry.FindHop | src/portal/server.c:395-408 | the scan computes the hop lookup |
| ExposureModel.InvAlways | src/sdk/expose.c:385-610 | after any sequence of changes and discovery steps, one change at a time, the seeds are disjoint from the explicit and the path relays, no listed relay is banned, and the path never has length one unless it started so |
| ExposurePhases.ListsAlwaysOk | src/sdk/expose.c:385-610 | in every interleaving of the regions of concurrent changes the seeds stay disjoint from the explicit and the path relays, and the path never has length one unless it started so |
| ExposurePhases.BannedAtRest | src/sdk/expose.c:385-610 | every interleaving of concurrent changes and discovery that has come to rest leaves a listed relay banned exactly when the last decision about it that was carried out in the relay set is not the last one begun in the lists |
| ExposurePhases.SerialIsSound | src/sdk/expose.c:385-610 | if the changes that concern a relay do not overlap, it is never both listed and banned at rest |
| ExposurePhases.AddAndRemoveCross | src/sdk/expose.c:421-426 | an addition and a removal of one relay whose regions cross leave it listed and banned |
| ReconcilePhases.ListenersAtRest | src/sdk/expose.c:1198-1310 | in every interleaving of changes, discovery and reconciliations that has come to rest, with every creation successful, no relay has two listeners and those with one are exactly the relays wanted for the final lists and a relay set that the run went through |
| ReconcilePhases.ListenersFollowLists | src/sdk/expose.c:1209-1245 | at rest the exit of the final path, or without path and automatic routes each final explicit relay, has a listener, and no other relay has one |
| ExposurePhases.BanFollowsVerdict | src/sdk/expose.c:423-490 | in every interleaving the ban of a relay is what the last ban or allow carried out says |
| ExposurePhases.ListedFollowsIntent | src/sdk/expose.c:392-485 | in every interleaving a relay is listed only if the last change begun that concerns it lists it, or none does and it was listed at the start |
| ExposureModel.ListedAfter | src/sdk/expose.c:385-610 | membership in each list after each change, in terms of membership before |
| ExposureFields.ChangeOnLists | src/sdk/expose.c:385-610 | the lists after each change, entry by entry and in order: which entries go, which is appended, when a path that loses a relay is kept or dropped, and which paths are taken |
| ExposureFields.ChangeOnRelays | src/sdk/expose.c:423-490 | after each change the relays concerned are in the relay set, allowed and bootstrapped, or banned and not |
| ExposureFields.EnlistOnRelays | src/sdk/expose.c:423-426 | allowing and bootstrapping a relay touches no other record |
| ExposureFields.ExpelOnRelays | src/sdk/expose.c:487-490 | banning a relay and dropping its bootstrap flag touches no other record |
| ExposureFields.WantedOnFields | src/sdk/expose.c:1204-1240 | the wanted relays: the exit of the path; else, for depth two or more, usable relays with the ports of the exposure, as many as the depth allows; else the explicit ones |
| ExposureModel.EffectsOnBans | src/sdk/expose.c:423-490 | no change leaves a relay banned that was unbanned or is being listed, except the one it removes |
| Exposures.CompactAll | src/sdk/expose.c:586-597 | the in-place compaction keeps exactly the other entries, in order |
| Exposures.Exposure.constructor | src/sdk/expose.c:354-372 | a new exposure has the configured lists, no listeners and a relay set of exactly the configured relays as bootstrap relays, and meets the invariants |
| Exposures.Exposure.AddToLists | src/sdk/expose.c:392-421 | the list region is the list part of the Add change |
| Exposures.Exposure.RemoveFromLists | src/sdk/expose.c:438-485 | the list region is the list part of the Remove change: the relay leaves every list, and a path left with fewer than two relays is dropped |
| Exposures.Exposure.SeedInLists | src/sdk/expose.c:502-553 | the list region is the list part of the Seed change |
| Exposures.Exposure.PathInLists | src/sdk/expose.c:578-598 | the list region is the list part of the SetMultiHop change |
| Exposures.Exposure.EnrollAll | src/sdk/expose.c:600-607 | the relay-set regions allow and bootstrap every relay of the path, in order |
| Exposures.Exposure.ExpelOne | src/sdk/expose.c:487-490 | the relay-set regions ban the relay and then drop its bootstrap flag |
| Exposures.Exposure.AddRelay | src/sdk/expose.c:385-429 | a call that no other change comes into is the Add change on lists and relay set, refused after cancellation |
| Exposures.Exposure.RemoveRelay | src/sdk/expose.c:431-493 | a call that no other change comes into is the Remove change: the relay leaves every list and is banned |
| Exposures.Exposure.SeedRelay | src/sdk/expose.c:495-561 | a call that no other change comes into is the Seed change on lists and relay set |
| Exposures.Exposure.SetMultiHop | src/sdk/expose.c:563-610 | a call that no other change comes into is the SetMultiHop change; a path of one relay, or a path beside raw ports, is refused without effect |
| Exposures.Exposure.Reconcile | src/sdk/expose.c:1198-1310 | brings the listeners in line with the wanted relays: the exit of the path, the automatic route, or the explicit relays |
| Listeners.ListenerTable.Reconcile | src/sdk/expose.c:1247-1305 | wanted listeners survive as the same objects, unwanted ones go, missing ones are created where that succeeds, and no URL has two |
| Listeners.ReconciledIsExact | src/sdk/expose.c:1247-1305 | when every creation succeeds exactly the wanted relays have a listener |
| Listeners.ListenerTable.RemoveStale | src/sdk/expose.c:1247-1270 | removing by recorded index from the back leaves exactly the wanted pairs, in order |
| Listeners.ListenerTable.RemoveAt | src/sdk/expose.c:94-112 | shifting both parallel lists removes one pair and keeps the others in order |
| Listeners.ListenerTable.AddListener | src/sdk/expose.c:69-92 | appends to both parallel lists |
| Modular.GcdVal | src/sdk/expose.c:1048-1055 | for arguments of either sign the loop computes what Euclid computes on their magnitudes |
| Modular.GcdDivides | src/sdk/expose.c:1048-1055 | what Euclid computes divides both arguments |
| Modular.GcdIsGreatest | src/sdk/expose.c:1048-1055 | every common divisor divides what Euclid computes, so it is the greatest common divisor |
| Modular.Bezout | src/sdk/expose.c:1048-1055 | what Euclid computes is an integer combination of its arguments |
| Modular.GcdOneIsCoprime | src/sdk/expose.c:1048-1055 | if Euclid computes one, no number above one divides both arguments |
| Modular.PickCoprimeStep | src/sdk/expose.c:1057-1065 | for every n >= 2 and every round, negative ones included, the search ends with the first number from its start on that is coprime to n, so the fallback after the loop is dead |
| Modular.StepIsPositive | src/sdk/expose.c:1057-1065 | the step is positive exactly when the round is at least -1 modulo n - 1, in particular for every round that is not negative, and then no number above one divides step and n |
| Modular.StepMeaning | src/sdk/expose.c:1057-1065 | in a round that is not negative the step is the first number from round mod (n - 1), plus one, that is coprime to n |
| Polling.CmpWeightsIsTotalOrder | src/sdk/expose.c:1080-1088 | the weight comparison is a total order under which different entries never compare equal |
| Polling.LighterFirst | src/sdk/expose.c:1080-1088 | the ranking lists the lighter relay first, and of equally heavy ones the smaller URL |
| Polling.PolledMeaning | src/sdk/expose.c:1160-1165 | a round polls the front of its plan, as many relays as the routing limit says, at least one and at most all |
| Polling.PlanRound | src/sdk/expose.c:1112-1158 | for every list of relays and every value of the round counter, the plan lists the weight ranking under an affine permutation with a coprime step that starts at slot round mod n; it exists exactly when n fits an int and the step is positive and does not overflow at the last position, or is -1 and starts at the last slot |
| Polling.EarlyRoundsOk | src/sdk/expose.c:1141-1149 | with up to 46340 relays the plan exists for the first 2^31 rounds |
| Polling.LateRoundFails | src/sdk/expose.c:1141-1149 | round 2^31 with four relays: the step is -1 and a slot lies outside the list |
| Polling.ManyRelaysFail | src/sdk/expose.c:1147-1147 | 65537 relays in round 65535: the slot arithmetic overflows |
| Polling.SlotsOfRound | src/sdk/expose.c:1139-1149 | the slots of a round can all be computed and lie in the list exactly under the condition of the plan |
| Polling.EverySlotOnce | src/sdk/expose.c:1139-1149 | within a round every slot has exactly one position |
| Polling.PlanIsPermutation | src/sdk/expose.c:1112-1158 | every plan is a rearrangement of the given relays |
| Polling.EveryRelayPolled | src/sdk/expose.c:1112-1165 | over any n consecutive rounds with the same relays and loads every relay is polled, even with one poll a round |
| Polling.SlotArithmeticFits | src/sdk/expose.c:1147-1147 | with up to 46340 relays the slot computation fits a 32-bit int |
| Datagram.EncodeUvarint | src/transport/datagram_client.c:15-23 | the loop emits the little-endian base-128 digits, the last without continuation bit |
| Datagram.VarintDigits | src/transport/datagram_client.c:15-23 | the bytes are the base-128 digits from the lowest up, all but the last with 128 added, at most five and without a superfluous one |
| Datagram.DecodeValue | src/transport/datagram_client.c:25-41 | any bytes decode to the low seven bits of each byte up to the first below 128, within five, modulo 2^32 |
| Datagram.DecodeUvarint | src/transport/datagram_client.c:25-41 | the loop accumulates at most five chunks into a 32-bit word |
| Datagram.VarintDecodes | src/transport/datagram_client.c:15-41 | from any chunk on, decoding the encoding of the remaining high part restores the whole value and consumes exactly its bytes |
| Datagram.FrameRoundTrip | src/transport/datagram_client.c:43-76 | decoding any encoded frame returns its 32-bit flow id and its payload |
| Datagram.DecodeFails | src/transport/datagram_client.c:25-41 | decoding fails exactly when none of the first five bytes ends the integer |
| FrameQueues.FrameQueue.Push | src/transport/datagram_client.c:111-131 | the ring refines appending and keeping the newest 256, or refuses when full and told so |
| FrameQueues.FrameQueue.Pop | src/transport/datagram_client.c:133-150 | the ring gives out the oldest frame |
| FrameQueues.FrameQueue.Close | src/transport/datagram_client.c:90-96 | closing forgets what is queued |
| FrameQueues.DeliveryInOrder | src/transport/datagram_client.c:90-150 | in every run the queue holds the latest pushes, and frames are delivered in push order, each at most once |
| FrameQueues.NewestRemain | src/transport/datagram_client.c:111-131 | however many frames arrive unread, exactly the newest 256 remain |
| HopChain.BuildChain | src/sdk/api_client.c:915-1026 | field by field: route i sits on relay i and forwards to relay i + 1 under the token of that hop, the first one serves the public hostname and every other one the token of the hop before; the exit token is that of the last hop; it fails exactly for fewer than two relays, a relay without descriptor, an entry URL without normal form or a missing public hostname |
| HopChain.PostRoutes | src/sdk/api_client.c:1255-1334 | registering with POST sends the routes from the exit side up to the first failure and adds exactly those that were sent and taken; it sends nothing if some descriptor is unknown, and succeeds exactly if every request is signed and answered |
| HopChain.PostLeavesSuffix | src/sdk/api_client.c:1293-1327 | whatever suffix of a chain is registered, registering it leaves a registered suffix exactly unless a route is taken while one nearer the exit is neither registered nor taken |
| HopChain.HonestRelaysSuffice | src/sdk/api_client.c:1293-1327 | if relays hold what they answer, registering always leaves a suffix, whatever is lost, and a success means that every route is registered |
| HopChain.PostCanDangle | src/sdk/api_client.c:1293-1327 | a chain of three whose middle request is answered but not stored: POST succeeds and the first route dangles |
| HopChain.DeleteRoutes | src/sdk/api_client.c:1293-1327 | withdrawing with DELETE removes exactly the routes whose requests got through |
| HopChain.DeleteLeavesSuffix | src/sdk/api_client.c:1293-1327 | whatever suffix of a chain is registered, withdrawing it leaves a dangling route exactly when the request for a registered route is lost and one for a later route gets through |
| HopChain.DeleteCanDangle | src/sdk/api_client.c:1293-1327 | withdrawing two registered routes, the first request lost and the second taken, leaves the first one dangling |
| HopChain.InjectiveMacSuffices | src/sdk/api_client.c:217-253 | a collision-free keyed hash gives every hop of a path its own token, even if a relay occurs twice |
| HopChain.ChainLeadsToExit | src/sdk/api_client.c:1002-1026 | while nothing expires, a connection goes from any registered hop of a chain with distinct tokens to the exit relay with the exit token |
| HopLifetime.ChainWhileAlive | src/portal/server.c:319-408 | through the hop registries of the relays, each at its own clock, a connection reaches the exit relay with the exit token exactly while every route it meets was registered less than 300 seconds ago, and is dropped otherwise |
| HopLifetime.ChainLifetime | src/sdk/api_client.c:1293-1327 | after a POST, which registers the exit side first, the chain leads to the exit until exactly 300 seconds after the exit-side route was taken, however recently the entry side was |
| HopLifetime.RunLeads | src/portal/server.c:319-341 | in every run of a registry a record for a token forwards to where its registrations say, since a refresh changes the expiry only |
| HopLifetime.StoredWithRoom | src/portal/server.c:319-341 | a hop registration is stored or renewed for 300 seconds exactly if the registry has the key or a free slot; otherwise it changes nothing |
| HopLifetime.RoomSuffices | src/sdk/api_client.c:1293-1327 | if no relay of the path is full, registering leaves a suffix whatever is lost on the way, and a success means that every route is registered |
| HopLifetime.FullRelaysBreak | src/sdk/api_client.c:1293-1327 | if every request reaches its registry and is answered, registering leaves a suffix exactly when no full relay without the route stands behind one with room |
| JsonText.GoJsonEscape | rust_bridge/src/crypto.rs:204-221 | the loop escapes the string character by character |
| JsonText.ReadInvertsEscape | rust_bridge/src/crypto.rs:204-221 | reading an escaped string up to the first bare quote returns the string, so escaping never emits a bare quote |
| JsonText.EscapeShape | rust_bridge/src/crypto.rs:204-221 | which characters are escaped, with two or with six characters, and that no other changes |
| JsonText.EscapedIsPlain | rust_bridge/src/crypto.rs:204-221 | an escaped text holds no control character, angle bracket or ampersand |
| JsonText.ValueOfDecimal | rust_bridge/src/crypto.rs:284-286 | a printed integer reads back as itself |
| JsonText.DecimalShape | rust_bridge/src/crypto.rs:284-287 | a printed integer has a minus sign exactly if it is negative, and no superfluous zero |
| FloatText.GoJsonF64 | rust_bridge/src/crypto.rs:226-273 | the pushes build the printed form of the number |
| FloatText.PlainKeepsValue | rust_bridge/src/crypto.rs:245-257 | positional notation denotes the number, for every digit string and place of the point |
| FloatText.ScientificKeepsValue | rust_bridge/src/crypto.rs:258-271 | exponent notation denotes the number, for every digit string and exponent |
| FloatText.PrintKeepsValue | rust_bridge/src/crypto.rs:226-273 | the printed text denotes the number, whichever notation is chosen |
| FloatText.PrintShape | rust_bridge/src/crypto.rs:226-273 | a printed number is a JSON number, with a minus sign exactly for negative ones and an exponent exactly for magnitudes below 10^-6 or from 10^21 on; what is not finite prints as zero |
| FloatText.ExponentWidth | rust_bridge/src/crypto.rs:265-270 | an exponent is printed with two digits exactly from 10 to 99 in magnitude, and -7 as e-7 |
| CanonicalText.BuildCanonical | rust_bridge/src/crypto.rs:278-305 | the pushes build the canonical text, field after field |
| FlatJson.TextReadsBack | rust_bridge/src/crypto.rs:278-305 | read as a flat JSON object the canonical text has the signed fields as its members, in order and under their labels: strings and flags as they are, integers and the bandwidth by value, the destination exactly if there is one |
| CanonicalText.TextDeterminesFields | rust_bridge/src/crypto.rs:278-305 | equal canonical texts come from equal signed fields, the bandwidth up to the decimal it prints |

## Left out

- LeaseRegistries.LookupInRuns: says nothing about a record after the lookup's lock is released; the janitor may free it then.
- Polling.EveryRelayPolled: does not model the load lookup, which uses another key length than the insertion; the load is an arbitrary fixed weight.
- Polling.PlanRound: what the program does after an overflow or an access outside the list is not modelled; there is no plan then.
- HopChain.ChainLeadsToExit: ends at the exit relay, because the server does not store the exit token on a lease and does not look up hop records by public hostname.
- HopChain.BuildChain: the descriptor lookup, the normal form of a relay URL, the public hostname and the bytes that the token hash covers are parameters.
- HopLifetime.RoomSuffices: takes for granted that a request which is answered names its next hop and reaches the registry of its relay.
- HopChain.DeleteRoutes: what a relay does with the request is a parameter; the relay of this repository serves `/sdk/hop` for POST only, so its routes leave by expiry.
- HopLifetime.ChainLifetime: assumes that each token is registered for one next hop only, which a token hash without collisions gives, and one clock for all relays; `HopLifetime.ChainWhileAlive` needs no common clock.
- ReadyList.RelayStream.Pop: does not model waiting; a claim may time out although a session is ready, because the keepalive thread waits on the same condition.
- LeaseRegistries.LeaseRegistry.RegisterLease: a hostname is always present, as both callers pass one, and the stream of a record is a flag beside the session model.
- ReconcilePhases.ListenersAtRest: a listener that could not be created is retried by no one until the next reconciliation; runs with such failures are described by `Listeners.ListenerTable.Reconcile` alone.
- RelaySets.RelaySet.ApplyDiscoveryResponse: the `confirm`, `unconfirm`, round-trip and failure recorders take part in runs as steps only, without methods of their own.
- RelaySets.RelaySet.PriorityRelays: reading records after the read lock is released is not modelled.
- Floating point rounding in the ranking statistics, which could make the choice of multipliers depend on summation order.
- Byte parity of the canonical text with Go, and the `long` and `short` canonical forms, which escape nothing.
- Memory ownership: deferred frees, aliasing of copied descriptors, uninitialised queue slots, allocation failures.
- The accept ring of the stream client and the connection channel of an exposure, bounded queues like the frame queue.
- Keyless bindings, the ClientHello accumulator of the proxy, and what happens to bytes after a session is claimed.
- Sockets, TLS handshakes, splicing, QUIC, HTTP, JSON parsing, ACME, WireGuard and yamux.
- Settings and admin handlers, logging, frontend, documentation site and editor extension.
