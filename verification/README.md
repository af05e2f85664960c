# A verified model of the godhcp lease server

This project models the parts of the standalone DHCP server in which state, time and
arithmetic interact, in Dafny, and proves what they guarantee over every input and every run.

* **Pool** (`Pool`, `PoolRuns`, `Fifo`): the address pool as a class over its three maps, runs of
  its operations, and allocation algorithm 2 as a first-in first-out queue.
* **Configuration** (`Address`, `ScopeConfig`): positions of addresses in a scope, and the pool
  that `ip_reserved` and `ip_assigned` leave.
* **Lease engine** (`Lease`, `LeaseEngine`): one network scope as a state machine. Its state is the
  pool, the lease cache with its eviction hook, the transaction caches, the pending delayed frees,
  the pending deferred deletes, a clock and a history of events. Its steps are: serving a message,
  an eviction, a deferred delete, a timer firing, a release through the API, and time passing.
  `LeaseEngine.Scope` is the handler as it runs. Its invariant is that the calls made so far are a
  run of that machine, and every call promises what runs guarantee.
* **Steps on plain fields** (`LeaseAnswers`): when a message is ACKed, refused or ignored and what each
  step leaves behind, written out on the bytes of the message and the fields of the state.
* **Results about runs** (`LeaseEffects`, `LeaseBooks`, `LeaseAcks`, `LeaseCoverage`, `LeaseDrain`,
  `LeaseAlone`, `LeaseTimers`, `LeaseStability`, `LeaseOffer`, `LeaseHeld`, `LeaseHeldZero`, `LeaseLost`,
  `LeaseReserved`, `LeaseReservedIff`): who can get which address, when addresses come back, what
  clients can and cannot do to each other.
* **Runs that go wrong** (`LeaseWitness`, `LeaseHazards`): the inputs on which an expected property
  fails. Each has a theorem that says exactly when the property holds: `LeaseCoverage.StepLosesIff` for
  lost addresses, `LeaseReservedIff.ReservedStaysIff` for freed static addresses,
  `LeaseStability.OfferHonouredIff` and `LeaseOffer.OfferGuaranteedIff` for refused offers,
  `LeaseHeld.NeverFreedIff` and `LeaseHeldZero.ZeroNeverFreedIff` for leases freed while they are live.
* **Packets** (`Checksum`): the Internet checksum of RFC 1071 in the UDP (RFC 768) and IP (RFC 791)
  headers.
* **Options** (`Decimal`, `IpText`, `Overrides`, `OverrideStore`, `ReplyOptions`): address lists as
  text, option overrides in layers, the memo cache over the override table, and the option set of
  replies.

## How the model reads the code

* One message handler, one pool method and one goroutine wake-up are atomic. Times are
  nanoseconds.
* Clients have neither of the two marker addresses (`main.go:42-43`); every other string may be a
  client's MAC.
* The lease cache follows the contract of go-cache: `Get` ignores expired entries, `Delete` runs the
  eviction hook, `Set` over an entry does not, `Replace` fails on an entry that is absent.
* `IPRange` is signed and `IPAdd` wraps at 32 bits, consistent with `config_test.go:254-303`.
* Probes are an oracle: a finite sequence of answers, negative afterwards. The index that
  `GetFreeIPIndex` picks is an oracle too, restricted to what its policy allows. The library
  function naming a transaction id, the network test of the API, random draws, clocks and the
  reading of IPv6 texts are arbitrary functions; two ids with one name are one transaction, as in
  the source.
* An index is *sheltered* when it is not index 0, or at most one other index is *open*: free at the
  start or the static position of a client. The retry loop uses index 0 without taking it, and gets
  there only when something is left free after its first choice.
* Option 50 is kept as bytes: Discover reads its first four, Request wants exactly four, Release and
  Decline also take a mapped IPv6 address; a panic the handler recovers from is silence.
* Go strings are Dafny strings whose characters stand for bytes.

The code is modelled as it is, including what one may not expect of it: delayed frees are not
guarded by owner; marking an owned index with the fake MAC has no effect; after a probe conflict the
loop goes on with index 0 without reserving it; a static client's ACK creates a lease entry whose
eviction frees the static index; overwriting an expired entry runs no eviction hook; a cached
address whose index has become free is reserved again but not offered. The comment at
`pool/pool.go:108` calls allocation random; under algorithm 2 it is oldest released first.

## Model

| member | source | states |
|---|---|---|
| `Pool.New` | pool/pool.go:23-37 | a new pool satisfies the invariant: free and owned indexes partition the capacity, and every index has a release time |
| `Pool.DHCPPool.constructor` | pool/pool.go:23-37 | the constructor's loop builds that pool |
| `Pool.DHCPPool.ReserveIPIndex` | pool/pool.go:40-55 | succeeds exactly on a free index in range and then records the owner; otherwise nothing changes |
| `Pool.DHCPPool.FreeIPIndex` | pool/pool.go:58-74 | succeeds exactly on an owned index in range, whoever owns it, and stamps the release time |
| `Pool.DHCPPool.IsFreeIPAtIndex` | pool/pool.go:77-90 | true exactly when a reservation would succeed |
| `Pool.DHCPPool.GetMACIndex` | pool/pool.go:93-106 | the owner, or the free marker for a free or out-of-range index |
| `Pool.DHCPPool.GetFreeIPIndex` | pool/pool.go:109-156 | fails exactly when full; otherwise takes a free index, under algorithm 2 one with the oldest release |
| `Pool.DHCPPool.OldestReleased` | pool/pool.go:119-140 | collecting, sorting and taking the first finds a free index no other free index was released before |
| `Pool.DHCPPool.DrawnKey` | pool/pool.go:142-150 | the random walk over the free indexes ends on a free index |
| `Pool.DHCPPool.FreeIPsRemaining` | pool/pool.go:164-168 | the number of free indexes |
| `Pool.SortByValue` | pool/pool.go:133-135 | a sorted rearrangement of its input |
| `PoolRuns.PartitionInvariant` | pool/pool.go:23-74 | over every run of operations free and owned indexes partition the capacity and their numbers add up to it |
| `PoolRuns.TakesAreSeparated` | pool/pool.go:40-74 | between two successful takes of one index lies a successful free of it |
| `PoolRuns.TakeAllIsPermutation` | pool/pool.go:109-156 | taking from a fresh pool as often as its capacity returns a permutation of all indexes and leaves it full |
| `Fifo.NewRepresents` | pool/pool.go:32-35 | with a strictly increasing clock a new pool is the queue 0, ..., capacity-1 |
| `Fifo.QueueIsUnique` | pool/pool.go:126-135 | release times determine the queue |
| `Fifo.StepRefines` | pool/pool.go:40-74 | one pool operation is one queue operation: frees enter at the tail, allocations take the head, reservations cut out the middle |
| `Fifo.RunRefines` | pool/pool.go:109-156 | every run under algorithm 2 is a run of the queue |
| `Fifo.RunPicksHead` | pool/pool.go:119-140 | every allocation in such a run hands out the head |
| `Fifo.BoundedWaiting` | pool/pool.go:119-156 | an index that is free together with n-1 others is handed out within n allocations, whatever happens to the others |
| `Address.IndexArithmetic` | interface.go:290 | for every 32-bit address the wrapped position is below the range exactly when the address is in the scope, then equals the signed index, and always leads back to the address |
| `Address.IndexRoundTrip` | interface.go:411 | index to address and back, in both ways of computing it |
| `Address.AddressInjective` | interface.go:372 | different positions are different addresses, also outside the scope |
| `ScopeConfig.IPsFromRange` | utils.go:98-121 | the loop over parts and spans returns the expansion and its length, one entry for an address or unreadable part and one for each address of a span |
| `ScopeConfig.ExpandAt` | utils.go:98-121 | the entries of a part stand after those of the parts before it, in ascending order |
| `ScopeConfig.ExpandMembers` | utils.go:98-121 | the expansion lists exactly the addresses some part covers |
| `ScopeConfig.ExcludeIP` | utils.go:124-135 | reserves the positions of the listed addresses for the fake MAC, in order |
| `ScopeConfig.AssignIP` | config.go:245-271 | reserves the assigned positions in order; exactly the assigned clients have a recorded position, and it leads to the address of the client's last assignment |
| `ScopeConfig.ConfigurePool` | config.go:158-184 | pool after exclusion and assignment, and the static positions of the clients as the last assignments give them |
| `ScopeConfig.FirstClaimWins` | pool/pool.go:40-55 | the first claim on an index wins, claims outside the pool change nothing |
| `ScopeConfig.ConfiguredOwners` | config.go:181-183 | the taken indexes are exactly the in-scope positions of listed addresses, each with its first claimant |
| `ScopeConfig.ConfiguredKinds` | config.go:181-183 | a reserved address belongs to the fake MAC even if also assigned, any other taken one to a client with an assignment |
| `ScopeConfig.ConfiguredFreeCount` | config.go:158-183 | the free count is the capacity minus the number of distinct listed in-scope addresses |
| `LeaseEngine.Scope.ServeDHCP` | interface.go:223-548 | serving a client's message extends the run by that step and keeps its guarantees: exclusive ACKs, balanced timers, configured addresses kept; an ACK without static assignment names an index the pool records for the client; no answer names a sheltered configured address nobody has as static position |
| `LeaseEngine.Scope.Respond` | interface.go:223-233 | a message whose client, type and transaction name are in progress is ignored, any other is marked and handled |
| `LeaseEngine.Scope.Discover` | interface.go:241-382 | the Discover branch computes the Discover step: static position, live entry, or the retry loop |
| `LeaseEngine.Scope.RetryLoop` | interface.go:283-368 | the retry loop terminates for every finite number of positive probes and computes the retry step |
| `LeaseEngine.Scope.FindAddress` | interface.go:285-321 | one search for an address: the requested one if owned or free, else the next free one |
| `LeaseEngine.Scope.PutAside` | interface.go:343-358 | what a probe conflict does to the cache, the pool and the timers |
| `LeaseEngine.Scope.Request` | interface.go:384-480 | the Request branch computes the Request step |
| `LeaseEngine.Scope.RequestLeased` | interface.go:424-453 | the part of it for a client with a live entry |
| `LeaseEngine.Scope.Acknowledge` | interface.go:462-475 | the updates made with an ACK: both global caches, the lease entry and the pool |
| `LeaseEngine.Scope.GiveBack` | interface.go:483-544 | Release and Decline schedule a free and a deferred delete for an address the client holds and owns |
| `LeaseEngine.Scope.DeleteLease` | config.go:167-174 | deleting an entry, expired or not, schedules the free of its index in thirty seconds |
| `LeaseEngine.Scope.EvictExpired` | config.go:165-174 | an eviction extends the run and keeps its guarantees |
| `LeaseEngine.Scope.RunDelete` | interface.go:502-504 | so does a deferred delete |
| `LeaseEngine.Scope.RunTimer` | interface.go:497-501 | so does a delayed free, unguarded by owner |
| `LeaseEngine.Scope.InterfaceScopeFromMac` | utils.go:22-39 | so does the API release, which gives a live entry three more seconds and returns the network of the client's address |
| `LeaseEngine.Scope.Tick` | interface.go:355 | so does time passing |
| `LeaseEngine.Scope.constructor` | config.go:158-184 | a new handler over a configured pool is at the start of a run |
| `LeaseEngine.RunSound` | interface.go:223-548 | what every run guarantees: the partition, exclusive ACKs, balanced timers, sheltered configured addresses with their first owner and told to nobody, and no address lost unless a step lost one |
| `LeaseEngine.Scope.RequestMatching` | interface.go:427-443 | a request for the address of the entry is answered once per transaction, by the pool's record |
| `LeaseEngine.Scope.Withdraw` | interface.go:495-504 | marking, delayed free and deferred delete of a Release or Decline |
| `LeaseAnswers.IgnoredIff` | interface.go:223-233 | a message is ignored if and only if one of the same client, type and transaction name was served within a second |
| `LeaseAnswers.AckIff` | interface.go:384-475 | a message is ACKed if and only if it is a Request or Inform not in progress, option 54 is absent, malformed or this server, option 50 of four bytes or else ciaddr names an address of the scope other than 0.0.0.0, and the client has it as static position or has a live entry for it, the pool's record, and no decision yet |
| `LeaseAnswers.OtherServerIgnored` | interface.go:391-399 | a request naming another server is not answered and leaves only its mark |
| `LeaseAnswers.OutsideRefused` | interface.go:409-411 | a request for no usable address of the scope gets a NAK |
| `LeaseAnswers.StaticRequestDecided` | interface.go:413-421 | a static client is ACKed exactly at its position, with the entries and times of an ACK |
| `LeaseAnswers.UnknownIgnored` | interface.go:454-458 | without a live entry a request is not answered |
| `LeaseAnswers.MatchingDecided` | interface.go:424-443 | a request for the address of the live entry is decided once a second, by the pool's record |
| `LeaseAnswers.MismatchDecided` | interface.go:444-452 | a request for another address gets a NAK, and the entry is deleted exactly if the decimal transaction id is marked 1 |
| `LeaseAnswers.GiveBackIff` | interface.go:483-544 | Release and Decline add the ten minute free and the deferred delete if and only if the client names the address of its live entry and the pool records it, leaving leases and pool; otherwise only the mark is left |
| `LeaseAnswers.StaticDiscoverDecided` | interface.go:247-251 | a static client is offered its position and nothing changes |
| `LeaseAnswers.LiveDiscoverDecided` | interface.go:253-281 | a live entry is offered again if the pool records the client; if its index is free it is taken without an offer |
| `LeaseAnswers.SeekingDecided` | interface.go:253-283 | every other Discover starts the search, and with which entry |
| `LeaseAnswers.FirstChoiceDecided` | interface.go:285-321 | what the search chooses, by the bytes of option 50, the owners and the free indexes |
| `LeaseAnswers.OfferDecided` | interface.go:324-364 | what an unanswered probe leaves: pool, five second entry and transaction mark 1 |
| `LeaseAnswers.ConflictDecided` | interface.go:338-360 | what an answered probe leaves: entry deleted, index put aside, frees in thirty seconds and ten minutes |
| `LeaseAnswers.DropsDecided` | config.go:167-174 | evictions and deferred deletes remove the entry and schedule the free in thirty seconds |
| `LeaseAnswers.FireDecided` | pool/pool.go:58-74 | a timer frees its index, whoever owns it, and stamps the time |
| `LeaseAnswers.ApiReleaseDecided` | utils.go:22-39 | the API release shortens a live entry to three seconds exactly if the client's last ACK is live and in the network |
| `LeaseAnswers.OtherKindsRefused` | interface.go:546-548 | messages of other types get a NAK |
| `LeaseEffects.ChooseEffect` | interface.go:285-321 | a found address is in range and, in a first pass, owned by the client; at most this one index changes hands, from free to the client |
| `LeaseEffects.RetryFrame` | interface.go:283-368 | whatever the probes, the retry loop never removes or changes an owner and touches no other client's entry |
| `LeaseEffects.RespondFrame` | interface.go:239-545 | the same for every message: only free indexes are taken, only the sender's entry changes, timers are only added |
| `LeaseEffects.RequestShape` | interface.go:384-480 | a request changes nothing but its mark, drops the sender's entry, or is an ACK earned by static position or by a live entry for an owned index |
| `LeaseEffects.RetryIsSearch` | interface.go:283-368 | the retry loop is one choice followed, after a conflict on it, by a loop on index 0 alone |
| `LeaseEffects.FirstChoiceEffect` | interface.go:285-321 | that choice is the client's afterwards and was free, or the client's already and named in option 50 |
| `LeaseEffects.RunPoolReady` | interface.go:241-544 | the pool's partition holds in every reachable state |
| `LeaseBooks.RunBalanced` | interface.go:354-358 | in every run pending plus fired timers are exactly the scheduled ones; each fired timer was scheduled earlier and waited the full delay of its cause |
| `LeaseAcks.DiscoverEnds` | interface.go:241-382 | a Discover ends in an offer or in silence |
| `LeaseAcks.AckIsOwned` | interface.go:424-475 | an ACK to a client without static assignment is for an index the pool records as the client's |
| `LeaseAcks.RunExclusive` | interface.go:424-475 | in every run whoever got the last such ACK for an index since its last free owns it in the pool |
| `LeaseAcks.AckedTwiceMeansFreed` | interface.go:424-544 | if one address is ACKed to two such clients, a timer freed it in between, scheduled its full delay earlier by an eviction, release, decline or probe conflict |
| `LeaseReserved.ConfiguredStays` | interface.go:246-475 | in every run a configured index other than 0 stays with its owner, without entry or timer, and is offered only to clients statically assigned to it, unless one of them was ACKed |
| `LeaseReserved.FirstStays` | interface.go:283-368 | the same for index 0 in a scope with at most one open index |
| `LeaseAlone.RespondAside` | interface.go:253-475 | every message leaves an index aside to which nothing but its owner's entry refers, and is not answered with it, unless a search leads there or a static client has it |
| `LeaseAlone.RespondUntouched` | interface.go:253-363 | so no message of another client touches a configured index or is answered with it |
| `LeaseReserved.ExcludedNeverServed` | utils.go:124-135 | an address of `ip_reserved` that is sheltered and nobody's static position is never offered and never ACKed, and stays with the fake MAC without lease entry or timer, in every run |
| `LeaseReserved.AssignedIsServed` | config.go:245-271 | in a configured scope a client is offered the address of its last assignment, and its request for it is ACKed if it lies in the scope and is not 0.0.0.0 |
| `LeaseReservedIff.ReservedNeverServedIff` | interface.go:340-363 | a configured address is never handed out in any run if and only if it is sheltered and no client has it as static position |
| `LeaseReservedIff.ReservedStaysIff` | interface.go:340-475 | it stays taken in every run if and only if it is sheltered and no client has it as static position, where 0.0.0.0 as static position does no harm because it is never ACKed; then it also stays with its first owner, without lease entry or timer |
| `LeaseWitness.ConflictThenZero` | interface.go:341-363 | after a conflict on the picked address index 0 is offered, free or not, with a five second entry |
| `LeaseWitness.FreeStatic` | interface.go:414-475 | from every reachable state a run frees a given static position and nothing else |
| `LeaseCoverage.StepLosesIff` | interface.go:253-363 | a step loses an address if and only if it is a Discover overwriting an expired, not yet evicted entry that is the only cover of its index, with another address |
| `LeaseCoverage.NoAddressLost` | interface.go:241-544 | in every run without such a step each index taken after configuration has a pending free or the lease entry of its owner |
| `LeaseCoverage.RunStaticLeases` | interface.go:414-474 | in every run the entry of a client with a static assignment is its position |
| `LeaseDrain.DrainRestores` | config.go:165-174 | however evictions, deferred deletes and timers follow each other from such a state, once no entry and no timer is left only configured indexes are taken |
| `LeaseDrain.DrainAll` | config.go:165-174 | from every state there is such a way |
| `LeaseDrain.RunDrains` | config.go:165-174 | so after any such run every drain brings back at least the configured number of free addresses |
| `LeaseStability.StepStable` | interface.go:253-281 | no step breaks the agreement of a client's entry with the pool without recording a drop or a free, and the client is told no other address |
| `LeaseStability.RunStable` | interface.go:253-475 | over every run the agreement holds and every OFFER or ACK to the client is its index, until the index is freed, the entry is dropped, or the client is served with an expired entry |
| `LeaseStability.OfferedEntry` | interface.go:324-372 | an offer leaves a five second entry for the offered index, owned by the client except for index 0 after a conflict |
| `LeaseStability.AckedIffOwner` | interface.go:424-443 | a fresh request for the address of a live entry is ACKed if the pool records the client, and otherwise refused with a NAK |
| `LeaseStability.OfferHonouredIff` | interface.go:253-475 | decided before the Discover: the request following its offer is ACKed if the offer comes from a live entry, or the first probe is not answered, or the client has index 0 once the first choice is made; otherwise it gets a NAK |
| `LeaseStability.ExchangeCompletes` | interface.go:283-475 | after a conflict-free offer the client's request is ACKed, across any interleaving that does not free the index or drop or expire the entry |
| `LeaseHeld.HeldExclusively` | interface.go:253-544 | a client that alone has an entry for an index, with no timer on it, other than index 0 and static positions, stays alone on it as long as its entry is there, over every run and any number of renewals: nobody else is told the address and it is not freed |
| `LeaseHeld.RenewalHolds` | interface.go:253-475 | a message of the client with a live entry, other than Release and Decline, drops the entry or leaves the index held alone |
| `LeaseHeld.NeverFreedIff` | interface.go:354-358 | a lease for an index other than 0 is never freed under its client, in any run in which the client only renews, if and only if no timer is on the index, no other client has an entry for it and no client has it as static position |
| `LeaseHeldZero.ZeroNeverFreedIff` | interface.go:341-363 | for index 0 the same, and moreover no search may be able to choose one index and leave another free; a static position 0.0.0.0 does no harm |
| `LeaseHeld.TimerFreesLive` | interface.go:497-501 | a timer on the index due by the expiry of the lease frees it while the lease is live |
| `LeaseTimers.ApplyLate` | config.go:167-174 | no step schedules a free less than thirty seconds away |
| `LeaseTimers.RunMarksShort` | interface.go:231 | in every run the marks of transactions and requests expire within a second |
| `LeaseOffer.KeptUntilIff` | interface.go:354-358 | up to thirty seconds ahead an index stays with its owner in every run if and only if no timer pending on it is due by then |
| `LeaseOffer.OfferGuaranteedIff` | interface.go:283-475 | an offer is honoured whenever the client asks within five seconds, whatever other clients, evictions, timers and the API do, short of an API release of this client, if and only if the request at once would be honoured, no deferred delete is pending for the client and no timer on the index is due by then |
| `LeaseLost.LostStepIff` | interface.go:290-363 | exactly which steps end that an index is lost (its owner's search naming it while something is free, an ACK to a client with it as static position, for index 0 any search that meets a conflict and leaves something free), and after exactly which of them it comes back by itself |
| `LeaseLost.LostStaysLost` | interface.go:253-544 | over every run without such a step it stays lost, is not freed, and is told to nobody but clients that have it as static position |
| `LeaseHazards.AddressCanBeLost` | interface.go:324 | a run that loses an address in that sense |
| `LeaseHazards.OfferCanBeRefused` | interface.go:341-363 | a run whose offer, of index 0 after a conflict, is refused with a NAK |
| `LeaseHazards.LiveLeaseCanBeFreed` | interface.go:497-501 | a run in which the ten minute timer of a Release frees the address under the next client's acknowledged, live lease |
| `LeaseHazards.StaticCanBeFreed` | interface.go:474 | a run after which a static address is free for anybody |
| `Checksum.FoldIsResidue` | rawClient.go:177-179 | folding is reduction modulo 65535 into 1..65535, and only zero folds to zero |
| `Checksum.Accumulate` | rawClient.go:169-176 | the accumulator holds the sum of the words modulo 2^32, an odd last byte as the high half of a word |
| `Checksum.Sum` | rawClient.go:168-192 | the fold terminates; up to 65537 words the result is the RFC 1071 checksum; it is never zero |
| `Checksum.OverflowBoundIsExact` | rawClient.go:169-176 | the accumulator is exact for all buffers of n words if and only if n is at most 65537 |
| `Checksum.OddIsPadded` | rawClient.go:174-176 | an odd length acts as if padded with a zero byte |
| `Checksum.InsertedChecksumVerifies` | rawClient.go:168-192 | inserting the computed checksum makes the receiver's sum all ones |
| `Checksum.UdpHeader.SetChecksum` | rawClient.go:151-166 | so for the UDP pseudo header, header and every payload that fits; `Checksum.BuildPacket` states it on the bytes of the packet |
| `Checksum.IpHeader.SetChecksum` | rawClient.go:194-199 | and for the IP header |
| `Checksum.BuildPacket` | rawClient.go:81-130 | the packet's bytes by their offsets: version, protocol 17, addresses, ports 67 and 68 and payload; for every payload that fits both length fields are the real lengths, and header and datagram with the pseudo header read from the packet sum to all ones |
| `IpText.PrintAddresses` | dictionary.go:29-53 | the printer with its reused buffer prints the whole four-byte blocks |
| `IpText.ParseList` | database.go:300-315 | the loop returns the concatenated addresses, or an error if one part cannot be read |
| `IpText.ReadBackPrinted` | dictionary.go:29-53 | reading a printed list gives the bytes back, less the trailing length mod 4; fewer than four bytes are unreadable |
| `IpText.PrintBackRead` | database.go:300-315 | printing a read list gives its canonical form, which reads the same; for dotted parts it is the list without spaces |
| `IpText.ParseOfPrint` | database.go:305-313 | reading a printed address gives it back |
| `IpText.PrintOfParse` | database.go:305-313 | a dotted address has only one spelling |
| `IpText.PrintV4Is` | dictionary.go:29-53 | an address prints as its four decimal octets with dots |
| `IpText.TrimSpaceIs` | database.go:305 | trimming takes away exactly the blanks at both ends |
| `IpText.ParseTo4Is` | database.go:305-313 | a text is read as IPv6 exactly if the first of its dots, colons and percent signs is a colon |
| `Decimal.TextIs` | interface.go:449 | numerals are decimal |
| `Overrides.ConvertOptionToDHCP` | database.go:284-361 | converts exactly the texts its type can hold: readable addresses, numerals in range, even numbers of hexadecimal digits, any string, byte for byte; the code is cut to a byte and the length is that of the type |
| `Overrides.AddressInverts` | database.go:288-298 | every address has a text that converts to it |
| `Overrides.ListInverts` | database.go:300-315 | so has every non-empty list of addresses |
| `Overrides.NumberInverts` | database.go:321-347 | so has every number in range |
| `Overrides.HexInverts` | database.go:349-356 | so has every byte sequence, with any separator |
| `Overrides.HexPrefix` | database.go:349-356 | a prefix 0x or 0X makes no difference |
| `Overrides.HexCapitals` | database.go:349-356 | capital digits read like small ones |
| `Overrides.StringInverts` | database.go:317-319 | every byte sequence is the conversion of its own text |
| `Overrides.IntegerOption` | database.go:321-347 | an integer option converts exactly when it is a numeral in range, to big-endian bytes that read back as the number |
| `Overrides.HexRoundTrip` | database.go:349-356 | hexadecimal text converts to its bytes, with any separator |
| `Overrides.ApplyRow` | database.go:375-382 | for every code the last convertible option of the row, else the value from below |
| `Overrides.LayerIs` | database.go:375-382 | a layer is the last option of its row that converts to the code, and absent exactly if none does |
| `Overrides.ApplyRows` | database.go:364-402 | every code has the value the MAC row gives it, else the one the network row gives it, else the base value |
| `OverrideStore.CacheKeyInjective` | database.go:31-33 | different targets have different cache keys |
| `OverrideStore.Store.CachedGet` | database.go:43-63 | the memo is transparent: every answer is the current row |
| `OverrideStore.Store.Save` | database.go:133-158 | the row is replaced and no stale answer stays cached; a failing write changes nothing |
| `OverrideStore.Store.Remove` | database.go:199-222 | the same for deletes, including the path that skips invalidation |
| `OverrideStore.Store.Invalidate` | database.go:35-39 | removing one key restores coherence after its row changed |
| `OverrideStore.Store.ApplyOptionOverrides` | database.go:364-402 | the layered meaning over the current rows, whatever is cached; unreadable layers are left out |
| `OverrideStore.CacheCoherence` | database.go:43-63 | under every interleaving a cached value is one the row has held, and outside a pending invalidation it is the latest if and only if no write fell between read and fill |
| `OverrideStore.StaleEntryPossible` | database.go:53-60 | a run in which a write between read and fill leaves a stale entry |
| `ReplyOptions.ShuffleNetIP` | utils.go:69-86 | the in-place exchanges and the concatenation |
| `ReplyOptions.ShuffleIP` | utils.go:88-96 | splits into blocks and shuffles them |
| `ReplyOptions.ShuffleKeepsBlocks` | utils.go:69-96 | a shuffled value has the same multiset of four-byte blocks, less trailing bytes |
| `ReplyOptions.EveryOrderPossible` | utils.go:69-86 | every order of the blocks comes out for some draws in range |
| `ReplyOptions.BuildReplyOptions` | interface.go:45-55 | every code has the value of the MAC row, else the network row, else the base value, which for codes 3 and 6 is shuffled with the last MAC byte, or else the clock, as seed |
| `ReplyOptions.OfferAndAckAgree` | interface.go:41-55 | with unchanged overrides OFFER and ACK agree on every code up to the order of DNS servers and routers, and also in that for overridden codes and MACs whose last byte is not zero |
| `ReplyOptions.AlwaysAgreeIff` | utils.go:69-86 | they are equal for all options, overrides, clocks and draws if and only if the last byte of the MAC is not zero |

## Left out

- The relay branch and the building of packets (`interface.go:71-185`): field copying through a library.
- Choosing the scope of a message (`interface.go:187-217`) and interference between scopes: one scope is modelled, and the transaction caches are its own.
- Sockets, listeners, the worker queue, HTTP handlers, INI files, the web pages, the watchdog: input and output.
- Statistics and the status text (`api.go:252-292`): a counting heuristic.
- The lookups of the API in the global caches: they do not influence leases.
- Regular expressions and parsing of addresses in the configuration: the model starts from parsed parts and pairs.
- ScopeConfig.IPsFromRange: a span whose end is below its start is excluded, because the source then keeps incrementing past the last IPv4 address and does not return a list of IPv4 addresses; so is a span of which only one end parses, on which the source loops for ever. The same holds for ScopeConfig.ExcludeIP and ScopeConfig.ConfigurePool, which expand the list.
- The remaining option decoders (`dictionary.go:55-198`): constants or identity.
- SQL, JSON, timestamps and ids of override rows: the table is a map.
- The safe integer conversions (`utils.go:152-171`): indexes are natural numbers below 2^32 everywhere they are used.
- White space outside ASCII in `strings.TrimSpace`, and MACs shorter than six bytes, on which building options panics.
- Interleavings inside one message handler: the source locks only the transaction caches and the pool, the model takes a handler as one step.
- Negative lease times: the lease time is a natural number. In the source a lease time of minus fifteen seconds or less makes the entries of ACKs never expire.
- LeaseOffer.OfferGuaranteedIff: for states in which marks of transactions expire within a second, which every run keeps (LeaseTimers.RunMarksShort). An offer of 0.0.0.0 counts as honoured, because the source refuses every request for it.
- LeaseHeldZero.ZeroNeverFreedIff: for states in which the entry of a static client is its position, which every run keeps (LeaseCoverage.RunStaticLeases).
- LeaseReservedIff.ReservedNeverServedIff: like LeaseReservedIff.ReservedStaysIff for pools whose owners are the fake MAC or clients with an assignment, which is what every configuration leaves (LeaseReserved.ConfiguredStanding).
- LeaseEngine.Scope.ServeDHCP: for a message with one of the two marker MACs only the step itself is promised, not the guarantees of runs.
- LeaseStability.ExchangeCompletes: a client with an address of 0.0.0.0 is excluded through the form of its request, which the source refuses.
- Fifo.RunRefines: ties and steps back of the clock are excluded; with them algorithm 2 takes some oldest index but in no fixed order.
- OverrideStore.Store.CachedGet: for the two kinds of targets the server looks up; other kinds are never looked up.
