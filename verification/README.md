# Beemesh placement, reservation and bookkeeping logic in Dafny

Beemesh places replicated workloads on a mesh of machines without a central
scheduler. This project models the parts of it that decide something: how a bidding round
splits replicas over nodes, how a machine reserves capacity, how candidates are selected,
what the provider cache remembers, when a nonce is a replay, how an announcement is laid
out in bytes, and which manifest has a recorded owner. Libraries, network and host
metrics enter as inputs.

| file | models |
|---|---|
| `LargestRemainder.dfy`, `Apportionment.dfy`, `SchedulingRound.dfy` | one bidding round of the Go scheduler: the split of exact shares, the split of scores, the round |
| `Reservations.dfy`, `ReservationHistory.dfy`, `ReservationRace.dfy` | the capacity reservations of `ResourceVerifier`: atomic calls, the history behind the manifest test, and interleaved calls |
| `NodeSelection.dfy`, `RoundRobinFairness.dfy` | the four selection strategies and the shared round-robin counter |
| `ProviderCache.dfy` | the cache of `ProviderManager` |
| `NonceStore.dfy` | the nonce store and envelope verification |
| `AnnouncementCodec.dfy` | `ProviderAnnouncement::to_bytes` and `from_bytes` |
| `WorkloadOwners.dfy`, `OwnerRace.dfy`, `ApplyGate.dfy` | apply, remove, owners and announcements over several engines: atomic handlers, their lock sections interleaved, and the reservation gate over runs of verifier and node |
| `Basics.dfy`, `Sums.dfy`, `StableOrder.dfy` | options and small functions, sums over sequences, the order of a stable sort |

For every operation there is also a lemma or a contract that says what it does in the fields,
numbers and bytes of the source (`AvailableInFields`, `ReserveEffect`, `AheadInFields`,
`WireLayout`, `CheckEffect`, `ApplyEffect`, `SightedInPlace` and their like).

Objects the program updates in place are classes whose methods state their whole new state
through a step function; loops stay loops. What is promised over many calls is stated about
runs of those step functions. Scores and loads are exact reals, times are integers in
nanoseconds read once per call, and u32/u64 bounds, saturation and wrap-around are written out.

The main results:

- The replica split conserves the total, gives each node the floor or ceiling of its exact
  share, never favours a lower score, always serves the best bid, and is the closest of all
  integer splits to the exact shares. Schedulers that heard the same bids build the same
  assignment map.
- Atomic reservations never overcommit, the saturating fold is always the true sum, and
  every stored amount is the exact product of the call that inserted it. With the locks as
  they are, k calls between reading the sum and inserting can hold k times the available amount
  and never more, and under changing snapshots k times the largest amount that was available.
- The manifest reservation test, the nonce check, the owner map and the announcements are
  each characterised, in both directions, by the history of calls alone; on runs of sightings
  so is the provider cache, and on runs of sightings and cleanups the expiry of its entries.
- Every deployment and every owner entry that comes through the apply gate follows a reserve
  call that backs it.
- With recording, hosting, announcing, listing, removing, withdrawing and dropping interleaved
  in any way by any number of calls, it is stated exactly when a signed workload is without an
  owner, when a hosted workload is not announced, and when an owner has nothing hosted.
- Round-robin is exactly fair over n calls and within min(k, n - k) at all times; load-based
  selection is optimal over all choices of that size.
- Announcements survive the round trip exactly when their lengths fit four bytes, with any
  trailing bytes, and no encoding is a proper prefix of another.

What the code does that its comments or a first reading do not suggest (the model follows the code):

- With no positive score, `assignReplicas` places only min(total, number of proposals)
  replicas, although more were asked for (`Apportionment.Conservation`).
- The apply gate is not the only way in. A direct apply to the machine itself deploys, and the
  creation of a task names an owner, with no reservation test. A deployment has a reservation
  behind it iff it came through the gate or the test would have said yes
  (`ApplyGate.ReservedIff`); without the two ungated events everything is backed
  (`ApplyGate.GateBacksAll`); an instance of the contrary is `ApplyGate.UngatedDeploys`.
- An owner entry may outlive, or precede, every workload of its manifest: the owner key is
  recorded before the steps of a deployment that may still fail, a removal with an error on
  another engine keeps the owner although it removed everything, another manifest may take the
  workload's place, and one workload can be removed by its id (`WorkloadOwners.OrphanIff` says
  exactly when, `RemovalOrphansIff` for one removal, `OwnerRace.EmptyIffTouched` with the lock
  sections apart; instances in `WorkloadOwners.OrphansHappen`).
- A removal withdraws the provider announcement even if it leaves workloads behind. With atomic
  handlers, hosted manifests stay announced iff no removal meets a fault on one of its own
  workloads (`WorkloadOwners.RemovalKeepsAnnounced`, `AnnouncedThroughout`, `UnannouncedIff`; an
  instance is `FailedRemovalHides`). With the lock sections apart, a hosted workload is not
  announced iff its apply has not come to that yet, or the last withdrawal of its manifest was
  by a removal that failed on the workload or had listed its engine before it was hosted
  (`OwnerRace.UnannouncedIffHidden`; for one apply and one fault-free removal
  `OwnerRace.HiddenIffRaced`; instances are `ApplyBetweenHappens` and `FaultHides`).
- A provider seen again keeps its first announcement time, so it expires as if it had not been
  seen again (`ProviderCache.ResightingKeepsExpiry`, `ExpiresFromInsertion`; an instance is
  `SeenAgainExpires`).
- A sighting updates the list and answers the waiting queries in two lock sections. Between
  them the peer may be lost again: the answer has it iff it was stored at some point and neither
  expired, evicted nor overwritten since (`ProviderCache.AnswerHasPeerIff`; an instance is
  `CleanupBetween`).
- Decoding a timestamp beyond what the platform's clock type can represent stops the program;
  it does so iff the bytes are well formed up to such a timestamp
  (`AnnouncementCodec.OverflowIff`).
- A decoded flag byte other than 0 and 1 reads as "no signature". What is accepted is an
  encoding iff the flag is 0 or 1 (`AnnouncementCodec.DecodedIsFramed`); a signed encoding with
  another flag loses its signature (`AnnouncementCodec.OtherFlagHidesSignature`).
- A call with a shorter nonce window forgets nonces that a call with a longer window would
  still refuse (`NonceStore.ShorterWindowForgets`); `NonceStore.AcceptedIff` says exactly
  when a nonce is accepted for any mixture of windows. Only the window parameter of the public
  function reaches this input: every caller in the program itself passes 300 seconds.
- The nonce is recorded before the signature is checked, so a forged envelope can take a nonce:
  an authentic one is refused iff its nonce was taken within the window
  (`NonceStore.RefusedIffTaken`, `ForgedTakesNonce`).
- Recording the owner, hosting, listing, removing and dropping the owner are separate lock
  sections. A signed workload loses its owner iff its owner was recorded before a clean
  removal's drop, it was hosted after that removal had listed the engine, and no owner was
  recorded since (`OwnerRace.OwnerlessIffRaced`; for one apply and one removal
  `OwnerRace.LostIffRaced`). Both orders of the race happen: a removal between recording and
  hosting, and a whole apply between listing and drop.
- Across the 64-bit wrap round-robin may pick a candidate twice in one call and random selection
  may need more probes than candidates; it does not iff 2^64 is a multiple of the number of
  candidates or the count is at most the remainder (`NodeSelection.DistinctIffSteady`,
  `ExactProbesIffSteady`; an instance is `WrapRepeats`). Fairness survives a wrap that is a whole
  number of rounds, and for one candidate at a time only such a wrap
  (`NodeSelection.CounterFairPerPeriod`, `CounterFairAlways`, `SinglePickFairIff`).

## Model

| member | source | states |
|---|---|---|
| Apportionment.ScoreSumPositive | workplane/internal/machine/scheduler.go:172-185 | the proportional branch is taken iff some score is positive |
| Apportionment.SharesAreProportional | workplane/internal/machine/scheduler.go:195-197 | the positive shares add up to the total |
| Apportionment.ScoreSumInScores | workplane/internal/machine/scheduler.go:172-178 | each positive score enters the sum once, and nothing else |
| Apportionment.ShareInScores | workplane/internal/machine/scheduler.go:196-196 | an exact share is the score over the sum, times the total |
| LargestRemainder.LeftoverFits | workplane/internal/machine/scheduler.go:205-215 | there are never more leftovers than entries, and every entry that gets one had a positive remainder, so one pass suffices |
| LargestRemainder.SplitConserves | workplane/internal/machine/scheduler.go:187-216 | floors and leftovers add up to the total, for any real shares whose positive parts do |
| LargestRemainder.SplitWithinQuota | workplane/internal/machine/scheduler.go:187-216 | every entry gets the floor of its share's positive part or, if that is not whole, the ceiling |
| LargestRemainder.SplitMonotone | workplane/internal/machine/scheduler.go:205-215 | an entry with at least the share of a later one gets at least as much, by the stable tie-break |
| LargestRemainder.LeftoverPriority | workplane/internal/machine/scheduler.go:205-215 | leftovers go to the larger fraction first, and at equal fractions to the earlier entry |
| LargestRemainder.SplitIsOptimal | workplane/internal/machine/scheduler.go:187-216 | the split deviates least from the exact shares among all integer splits of the total |
| Apportionment.Conservation | workplane/internal/machine/scheduler.go:167-217 | the units add up to the total if some score is positive, else to min(total, number of proposals) |
| Apportionment.QuotaRule | workplane/internal/machine/scheduler.go:187-216 | each entry gets the floor of its exact share or, if that is not whole, the ceiling; zero and negative scores get nothing |
| Apportionment.Monotone | workplane/internal/machine/scheduler.go:111-122 | along a list sorted by falling score, no entry gets more than one ahead of it, in both branches |
| Apportionment.TopIsServed | workplane/internal/machine/scheduler.go:165-217 | the first entry of the sorted list gets at least one replica whenever there is one |
| Apportionment.Optimal | workplane/internal/machine/scheduler.go:187-216 | no integer split of the total has a smaller total absolute deviation from the exact shares |
| StableOrder.StableOrderIsUnique | workplane/internal/machine/scheduler.go:206-206 | a stable sort leaves no choice: two lists with its promise are equal |
| SchedulingRound.Collect | workplane/internal/machine/scheduler.go:146-163 | the proposals of this round heard before the window closes or the context is cancelled, in order |
| SchedulingRound.CollectedExactly | workplane/internal/machine/scheduler.go:146-163 | a proposal is collected iff it was heard under the TaskID with nothing but proposals before it |
| SchedulingRound.CollectedInOrder | workplane/internal/machine/scheduler.go:146-163 | nothing is dropped, repeated or reordered: the collected proposals stand at the rising positions of exactly those heard in time under the TaskID |
| SchedulingRound.UpsertProposal | workplane/internal/machine/scheduler.go:219-232 | the first entry of the node is replaced, or the proposal appended; one bid per node stays one bid per node |
| SchedulingRound.StringLessIff | workplane/internal/machine/scheduler.go:118-118 | the string order is decided at the first difference: the end of the shorter, or the smaller character |
| SchedulingRound.AheadInFields | workplane/internal/machine/scheduler.go:111-119 | a bid is ahead iff its score is higher, at equal scores it is older, at equal times its node id is smaller |
| SchedulingRound.SortingIsDeterministic | workplane/internal/machine/scheduler.go:110-119 | score, age and node id determine the sorted list: sorted permutations of one list are equal |
| SchedulingRound.SumPositive | workplane/internal/machine/scheduler.go:172-178 | the loop accumulates the sum of the positive scores |
| SchedulingRound.OneEach | workplane/internal/machine/scheduler.go:179-185 | the fallback loop builds the map that carries the specified units |
| SchedulingRound.FloorPass | workplane/internal/machine/scheduler.go:187-203 | after the first pass the map carries the floors, `remaining` is what they leave, and the remainders are in list order |
| SchedulingRound.DistributeLeftovers | workplane/internal/machine/scheduler.go:205-215 | each of the first `remaining` entries of the sorted remainders gets one more, and the outer loop runs at most once |
| SchedulingRound.AssignReplicas | workplane/internal/machine/scheduler.go:167-217 | the map carries the specified units summed by node id, for every list and total, is empty without a positive total, and takes at most one leftover pass |
| SchedulingRound.Execute | workplane/internal/machine/scheduler.go:124-142 | whatever order the map is visited in, each node is called as often as it was assigned, and never delegated to itself |
| SchedulingRound.DistributedSchedule | workplane/internal/machine/scheduler.go:81-143 | a round makes exactly max(1, Replicas) calls if some bid is positive, else min of that and the number of bids; as many local deployments as its own award and as many delegations to each other node as that one's; its own bid is always in the list; repeated node ids included |
| SchedulingRound.Agreement | workplane/internal/machine/scheduler.go:99-122 | schedulers whose bids are permutations of each other build the same assignment map and awards |
| SchedulingRound.NodeQuota | workplane/internal/machine/scheduler.go:172-216 | with one bid per node, a node is awarded the floor or ceiling of its exact share, and nothing without a positive score |
| SchedulingRound.HigherScoreNeverFewer | workplane/internal/machine/scheduler.go:110-122 | with one bid per node, a higher score, at equal scores an older bid, at equal times a smaller node id is awarded no fewer replicas |
| SchedulingRound.LargerFractionFirst | workplane/internal/machine/scheduler.go:205-215 | of two positive bids, the larger fraction of an exact share is rounded up first, and at equal fractions the bid ahead |
| SchedulingRound.BestBidServed | workplane/internal/machine/scheduler.go:165-217 | with one bid per node, the highest score, of these the oldest, of these the smallest node id is awarded at least one replica |
| SchedulingRound.NodeOptimal | workplane/internal/machine/scheduler.go:187-216 | with one bid per node, the awards deviate least from the exact shares among all integer splits over the nodes |
| Reservations.AvailableBelow | machineplane/machine/src/resource_verifier.rs:42-61 | what is available stays below the machine limit; with allocation and minimum free space it makes exactly 90 percent of the total while the product fits 64 bits, and never more |
| Reservations.AvailableInFields | machineplane/machine/src/resource_verifier.rs:42-61 | available are 90 percent of the total of each resource less its own allocation, and less 512 MiB of memory and 1 GiB of storage, with the 64-bit wrap |
| Reservations.NeededInFields | machineplane/machine/src/resource_verifier.rs:102-114 | needed are CPU, memory and storage of the request times its replicas, saturating at 2^32 - 1 and 2^64 - 1 |
| Reservations.AmountInFields | machineplane/machine/src/resource_verifier.rs:177-188 | each sum of the fold is over its own field of the holds |
| Reservations.RefusalNamesFirstShort | machineplane/machine/src/resource_verifier.rs:218-249 | a refusal names the first resource, of CPU, memory and storage, of which something is needed that does not fit beside what is held |
| Reservations.ReserveEffect | machineplane/machine/src/resource_verifier.rs:192-272 | other holds stay iff not expired; a live hold is kept three seconds more and renamed if a manifest is given; a new one takes exactly request times replicas; a refusal leaves none |
| Reservations.InsertionFits | machineplane/machine/src/resource_verifier.rs:211-269 | a request that passes the check needs exactly its product, and a positive need fits beside what is held |
| Reservations.FoldStep | machineplane/machine/src/resource_verifier.rs:177-188 | one saturating addition keeps the fold equal to the capped true sum |
| Reservations.PrunesAreInvisible | machineplane/machine/src/resource_verifier.rs:171-175 | pruning is housekeeping: leave all prunes out of a run, and every later reserve call and manifest test answers the same |
| Reservations.ResourceVerifier.TotalReserved | machineplane/machine/src/resource_verifier.rs:177-188 | in any iteration order the fold gives the true sum capped at the machine limit |
| Reservations.ResourceVerifier.ReserveCapacity | machineplane/machine/src/resource_verifier.rs:192-272 | refreshes a live hold, inserts one that fits, or names the first resource that is short |
| Reservations.ResourceVerifier.HasActiveReservation | machineplane/machine/src/resource_verifier.rs:275-281 | prunes, and answers whether some live hold names the manifest |
| Reservations.ResourceVerifier.VerifyCapacity | machineplane/machine/src/resource_verifier.rs:452-548 | prunes, answers whether the request fits, names the first resource that is short, and reports what is reservable |
| Reservations.StepHeld | machineplane/machine/src/resource_verifier.rs:192-272 | only an insertion raises what is held, and by exactly what the request needs |
| Reservations.NoOvercommit | machineplane/machine/src/resource_verifier.rs:192-272 | on every run of atomic calls, an insertion leaves each resource it takes within what is available then |
| Reservations.FoldIsExact | machineplane/machine/src/resource_verifier.rs:177-188 | on every run the saturating fold equals the true sum |
| Reservations.HoldsAreExact | machineplane/machine/src/resource_verifier.rs:102-114 | on every run each hold is, per resource, exactly request times replicas of the call that last inserted a hold for its id |
| Reservations.VerifyPredictsReserve | machineplane/machine/src/resource_verifier.rs:452-548 | for an unused request id the capacity check says yes iff the reservation would be accepted |
| Reservations.YesStaysValid | machineplane/machine/src/resource_verifier.rs:452-548 | a yes stays valid through any run that inserts nothing and keeps the snapshot, refreshes included |
| ReservationHistory.HoldIsTracked | machineplane/machine/src/resource_verifier.rs:192-209 | on every run a hold carries the expiry and manifest its accepted calls imply, and is present until it expires |
| ReservationHistory.ManifestTest | machineplane/machine/src/resource_verifier.rs:275-281 | the manifest test is true iff some id has an accepted call less than 3 s ago and the latest manifest named since its hold was created is this one |
| ReservationHistory.GateFollowsReserve | machineplane/machine/src/resource_verifier.rs:275-281 | whenever the manifest test says yes, an accepted call named the manifest and a later or equal accepted call for the same id is less than 3 s old |
| ApplyGate.TestIsHistory | machineplane/machine/src/workload_integration.rs:213-239 | at any point of a run of verifier and node the manifest test says yes iff the history puts the manifest under reservation, and then accepted reserve calls back it |
| ApplyGate.AdmittedInFields | machineplane/machine/src/workload_integration.rs:195-231 | the gate admits a request iff it has a manifest with an id and some live hold names it |
| ApplyGate.DeploymentFollowsReserve | machineplane/machine/src/workload_integration.rs:213-262 | on every run each hosted workload was deployed by a request the gate admitted, after accepted reserve calls that name its manifest and are less than 3 s old, or by a self-apply |
| ApplyGate.ReservedIff | machineplane/machine/src/workload_integration.rs:630-671 | a deployment has a reservation behind it iff it came through the gate or the test would have said yes to it |
| ApplyGate.OwnerFollowsReserve | machineplane/machine/src/restapi/mod.rs:447-454 | on every run each owner entry was recorded by an admitted request, backed in the same way, by a self-apply, or by the creation of a task |
| ApplyGate.GateBacksAll | machineplane/machine/src/workload_integration.rs:213-239 | on runs without self-applies and task creations every hosted workload and every owner entry is backed |
| ApplyGate.UngatedDeploys | machineplane/machine/src/workload_integration.rs:630-671 | a self-apply hosts, and a task creation names an owner, with no reservation |
| ReservationRace.InvariantHolds | machineplane/machine/src/resource_verifier.rs:192-272 | on every interleaving, under changing snapshots, held plus claimed plus what the sums read still allow stays within k times the largest amount available so far |
| ReservationRace.InterleavedBound | machineplane/machine/src/resource_verifier.rs:192-272 | with at most k calls between reading the sum and inserting and any measurements in between, held plus claimed is at most k times the largest amount that was available |
| ReservationRace.FixedSnapshotBound | machineplane/machine/src/resource_verifier.rs:192-272 | with a fixed snapshot no more than k times the available amount is ever held; k = 1 means no overcommit |
| ReservationRace.UninterruptedIsReserve | machineplane/machine/src/resource_verifier.rs:192-272 | run without interruption, the steps of a call are the one atomic reserve call |
| ReservationRace.BoundIsReached | machineplane/machine/src/resource_verifier.rs:211-269 | for every k, snapshot and resource some interleaving holds exactly k times the available amount |
| RoundRobinFairness.PicksAreDistinct | machineplane/scheduler/src/lib.rs:184-192 | one call picks pairwise distinct available candidates |
| RoundRobinFairness.WindowOfN | machineplane/scheduler/src/lib.rs:184-192 | any n consecutive counter values hit every position exactly k times |
| RoundRobinFairness.WindowSpread | machineplane/scheduler/src/lib.rs:184-192 | over any number of counter values two positions differ by at most k and by at most n - k hits |
| RoundRobinFairness.FairPerPeriod | machineplane/scheduler/src/lib.rs:179-195 | n consecutive counter values select each of n candidates exactly `count` times |
| NodeSelection.CounterFairPerPeriod | machineplane/scheduler/src/lib.rs:179-195 | n consecutive calls of the wrapping counter select each of n candidates exactly `count` times, below the wrap from any start and across it if 2^64 is a multiple of n |
| RoundRobinFairness.FairAlways | machineplane/scheduler/src/lib.rs:179-195 | over any number of counter values two candidates differ by at most count, and by at most n - count |
| NodeSelection.CounterFairAlways | machineplane/scheduler/src/lib.rs:179-195 | the same for any number of calls of the wrapping counter |
| NodeSelection.SinglePickFairIff | machineplane/scheduler/src/lib.rs:179-195 | one candidate at a time, n calls select each exactly once iff they stay below the wrap or 2^64 is a multiple of n |
| NodeSelection.Available | machineplane/scheduler/src/lib.rs:116-121 | exactly the positions of available candidates, rising |
| NodeSelection.LeastLoadedFirst | machineplane/scheduler/src/lib.rs:229-248 | whatever is left out is heavier, or as heavy and later in the list, than whatever is selected |
| NodeSelection.LeastLoadedInOrder | machineplane/scheduler/src/lib.rs:229-248 | the selection comes lightest first, and equal loads in list order |
| NodeSelection.LeastLoadedIsOptimal | machineplane/scheduler/src/lib.rs:229-248 | no set of that many available candidates has a smaller total load |
| NodeSelection.DistinctIffSteady | machineplane/scheduler/src/lib.rs:184-192 | consecutive positions are distinct iff the counter stays below the wrap, or 2^64 is a multiple of n, or the count is at most its remainder |
| NodeSelection.SelectRandom | machineplane/scheduler/src/lib.rs:198-226 | probes until enough candidates are reached and no longer, and fails iff 1000 probes are not enough, for every seed |
| NodeSelection.EnoughBelowWrap | machineplane/scheduler/src/lib.rs:212-220 | below the wrap it takes exactly count probes, so it fails iff more than 1000 candidates are wanted |
| NodeSelection.ExactProbesIffSteady | machineplane/scheduler/src/lib.rs:212-216 | for any seed, count probes are enough iff they are steady across the wrap |
| NodeSelection.Scheduler.SelectRoundRobin | machineplane/scheduler/src/lib.rs:179-195 | picks count consecutive positions from the counter and advances it by one, both wrapping |
| NodeSelection.Scheduler.SelectCandidates | machineplane/scheduler/src/lib.rs:161-176 | each strategy delivers its own selection, of the asked size and available, distinct iff round-robin is steady |
| NodeSelection.Scheduler.ScheduleWorkload | machineplane/scheduler/src/lib.rs:107-158 | exactly when each error occurs, and on success as many available candidates as the smaller of required and max_candidates: the first, the next from the counter, or the lightest, as configured; distinct iff round-robin is steady |
| ProviderCache.Oldest | machineplane/machine/src/provider/mod.rs:447-452 | the first entry with the smallest last-seen time |
| ProviderCache.Unexpired | machineplane/machine/src/provider/mod.rs:199-204 | exactly the entries that have not expired |
| ProviderCache.SightingEffect | machineplane/machine/src/provider/mod.rs:440-457 | the peer is stored and seen now, the oldest entry goes iff the peer is new and the list full, and every other entry is as it was |
| ProviderCache.SightedInPlace | machineplane/machine/src/provider/mod.rs:440-457 | the first entry of the peer is refreshed in its place; a new peer goes to the end, after the first of the least recently seen entries is taken out if the list is full |
| ProviderCache.OtherManifestsUntouched | machineplane/machine/src/provider/mod.rs:433-469 | a sighting concerns its own manifest only |
| ProviderCache.ProviderManager.HandleProviderFound | machineplane/machine/src/provider/mod.rs:418-470 | updates one manifest's list and sends every waiting query that list |
| ProviderCache.ProviderManager.CleanupExpired | machineplane/machine/src/provider/mod.rs:237-256 | every list keeps its unexpired entries, and manifests left without any go |
| ProviderCache.ProviderManager.CachedProviders | machineplane/machine/src/provider/mod.rs:195-215 | a hit iff some cached entry is unexpired, returning the unexpired entries |
| ProviderCache.UnexpiredInOrder | machineplane/machine/src/provider/mod.rs:199-204 | the unexpired entries keep their order and their number |
| ProviderCache.FinishCachesFirstSighting | machineplane/machine/src/provider/mod.rs:366-414 | on every run a query that ends caches the list as of the first sighting of its manifest since it started, undoing later ones, and nothing if there was none |
| ProviderCache.ExpiredInFields | machineplane/machine/src/provider/mod.rs:58-64 | expired are announcements from the future and those at least one second past the time to live |
| ProviderCache.ResightingKeepsExpiry | machineplane/machine/src/provider/mod.rs:440-444 | a sighting of a stored peer leaves the expiry of its entry as it was, at every time |
| ProviderCache.DatesFromInsertion | machineplane/machine/src/provider/mod.rs:418-458 | on every run of sightings and cleanups a stored entry carries the time of the sighting that inserted it, the first since the peer was last absent |
| ProviderCache.ExpiresFromInsertion | machineplane/machine/src/provider/mod.rs:58-64 | on such runs it is expired iff time to live plus one second have passed since that sighting, whatever sightings came after |
| ProviderCache.SeenAgainExpires | machineplane/machine/src/provider/mod.rs:58-64 | a peer seen again at any time up to then is expired all the same |
| ProviderCache.CleanupIsExact | machineplane/machine/src/provider/mod.rs:237-256 | a cleanup drops exactly the expired entries and leaves no empty list |
| ProviderCache.SightingAnswersQueries | machineplane/machine/src/provider/mod.rs:460-469 | run without a break, every query waiting for the manifest is answered with a list that has the peer, no other query is, and none waits afterwards |
| ProviderCache.AnswerHasPeerIff | machineplane/machine/src/provider/mod.rs:433-469 | with update and notification as separate lock sections between any other operations, an answer has the peer iff it was stored and not expired, evicted or overwritten since |
| ProviderCache.SectionsMakeTheWhole | machineplane/machine/src/provider/mod.rs:433-469 | run without a break, update and notification are the one operation modelled elsewhere |
| ProviderCache.CleanupBetween | machineplane/machine/src/provider/mod.rs:433-469 | a cleanup between the two sections leaves an answer without the peer just sighted |
| ProviderCache.CacheStaysSound | machineplane/machine/src/provider/mod.rs:418-470 | on every run, with cleanups and overwrites, every list has one entry per peer and at most max(1, limit) entries |
| ProviderCache.OldestIsLast | machineplane/machine/src/provider/mod.rs:445-455 | the evicted entry is the least recently sighted of those stored |
| ProviderCache.CacheHoldsLatest | machineplane/machine/src/provider/mod.rs:440-457 | on every run of sightings with a strictly increasing clock the list holds the latest visits that fit |
| ProviderCache.StoredIffRecent | machineplane/machine/src/provider/mod.rs:418-458 | on such runs a peer is stored iff fewer than max(1, limit) distinct peers were sighted after its last sighting |
| NonceStore.Nonces.CheckAndInsert | machineplane/crypto/src/flatbuffer_envelope.rs:35-60 | refuses an empty nonce, prunes the peer's bucket, refuses a nonce in it, else inserts it |
| NonceStore.CheckEffect | machineplane/crypto/src/flatbuffer_envelope.rs:35-60 | entry by entry: an empty nonce changes nothing, other peers keep theirs, this peer keeps those at most a window old, and the nonce is entered with the time of the call iff it is not among them |
| NonceStore.StoreIsHistory | machineplane/crypto/src/flatbuffer_envelope.rs:47-58 | on every run a bucket holds exactly the accepted nonces no later call for the peer pruned, with their times |
| NonceStore.AcceptedIff | machineplane/crypto/src/flatbuffer_envelope.rs:35-60 | for any clock and windows, a nonce is accepted iff it is not empty and no accepted call for it survives |
| NonceStore.WindowIsExact | machineplane/crypto/src/flatbuffer_envelope.rs:35-60 | with a forward clock and one window, accepted iff not empty and not accepted for this peer within the window, whatever other peers do |
| NonceStore.ShorterWindowForgets | machineplane/crypto/src/flatbuffer_envelope.rs:52-53 | with two windows a replay inside the longer one is accepted |
| NonceStore.PrefixIsDropped | machineplane/crypto/src/flatbuffer_envelope.rs:13-21 | a scheme prefix up to the first colon is dropped whole, and a bare signature is left alone |
| NonceStore.VerifyEnvelope | machineplane/machine/src/libp2p_beemesh/envelope.rs:184-252 | success iff everything decodes, a non-empty nonce is new, and the signature verifies over the canonical form with the peer id iff the envelope has one; returns payload, key, signature, time and type; the nonce is recorded even if the signature then fails |
| NonceStore.AuthenticInFields | machineplane/machine/src/libp2p_beemesh/envelope.rs:215-246 | which bytes the signature must cover |
| NonceStore.DecodesInFields | machineplane/machine/src/libp2p_beemesh/envelope.rs:189-200 | a delivery without an envelope, a decodable signature or a decodable key gets no further, and what does is entered under its own peer, nonce, window and time |
| NonceStore.NeverTwice | machineplane/machine/src/libp2p_beemesh/envelope.rs:238-243 | two successes in one peer bucket with one non-empty nonce are more than the window apart |
| NonceStore.RefusedIffTaken | machineplane/machine/src/libp2p_beemesh/envelope.rs:238-248 | an authentic envelope with a nonce is refused iff an accepted nonce call for it, forged or not, lies within the window |
| NonceStore.ForgedTakesNonce | machineplane/machine/src/libp2p_beemesh/envelope.rs:238-248 | a forged envelope delivered first gets the authentic one with its nonce refused |
| AnnouncementCodec.TakeBlock | machineplane/machine/src/provider/announcements.rs:131-147 | a block read is the length prefix and content in front of what follows |
| AnnouncementCodec.WrittenMostSignificantFirst | machineplane/machine/src/provider/announcements.rs:88-119 | the place value of every byte of a length and of a number |
| AnnouncementCodec.ReadMostSignificantFirst | machineplane/machine/src/provider/announcements.rs:135-180 | the place value of every byte read |
| AnnouncementCodec.ToBytes | machineplane/machine/src/provider/announcements.rs:83-125 | appending field by field gives the layout byte for byte: lengths in four bytes and numbers in eight, most significant first, time in whole seconds or zero before the epoch, flag 1 and signature or flag 0 |
| AnnouncementCodec.ReadBlock | machineplane/machine/src/provider/announcements.rs:131-147 | reading at an offset agrees with taking a block off the remaining bytes, within bounds on every input |
| AnnouncementCodec.FromBytes | machineplane/machine/src/provider/announcements.rs:128-254 | never out of bounds on any input, and equal to the specified decoder with its errors, the overflowing timestamp included |
| AnnouncementCodec.BlockErrors | machineplane/machine/src/provider/announcements.rs:131-145 | a block is missing without four bytes of length, and too short without as many bytes as they say |
| AnnouncementCodec.PeerIdErrors | machineplane/machine/src/provider/announcements.rs:131-148 | which error the peer id gives, and when |
| AnnouncementCodec.ManifestIdErrors | machineplane/machine/src/provider/announcements.rs:150-165 | which error the manifest id gives, and when |
| AnnouncementCodec.NumberErrors | machineplane/machine/src/provider/announcements.rs:167-198 | which error the two numbers give, and when |
| AnnouncementCodec.MetadataErrors | machineplane/machine/src/provider/announcements.rs:200-218 | which error the metadata give, and when |
| AnnouncementCodec.SignatureErrors | machineplane/machine/src/provider/announcements.rs:220-243 | which error flag and signature give, and when |
| AnnouncementCodec.OverflowIff | machineplane/machine/src/provider/announcements.rs:167-182 | decoding stops the program iff the bytes are well formed up to a timestamp beyond the last second the platform can represent |
| AnnouncementCodec.RoundTrip | machineplane/machine/src/provider/announcements.rs:83-254 | decoding an encoding followed by any bytes returns the announcement, time cut to seconds, and those bytes |
| AnnouncementCodec.RoundTripIff | machineplane/machine/src/provider/announcements.rs:90-119 | the round trip holds iff every length is below 2^32 and every number fits eight bytes |
| AnnouncementCodec.PrefixFree | machineplane/machine/src/provider/announcements.rs:83-125 | no encoding is a proper prefix of another |
| AnnouncementCodec.DecodedIsFramed | machineplane/machine/src/provider/announcements.rs:219-253 | everything accepted is an encoding followed by rest up to its flag byte, and is an encoding of any fitting announcement iff that byte is 0 or 1 |
| AnnouncementCodec.OtherFlagHidesSignature | machineplane/machine/src/provider/announcements.rs:219-253 | a signed encoding with any flag byte but 1 decodes without its signature, which stays as trailing bytes |
| WorkloadOwners.Node.ProcessDeployment | machineplane/machine/src/workload_integration.rs:306-428 | records a non-empty owner key once the manifest decrypts, then hosts the workload unless a later step fails |
| WorkloadOwners.ApplyEffect | machineplane/machine/src/workload_integration.rs:306-428 | in the fields of the request: which place gets which workload, whose owner is recorded, what is announced, and that nothing else changes |
| WorkloadOwners.Node.HandleApply | machineplane/machine/src/workload_integration.rs:195-262 | exactly when each refusal occurs; nothing changes without an active reservation for the manifest; success iff the request deploys, with its workload id |
| WorkloadOwners.Node.SweepEngine | machineplane/machine/src/workload_integration.rs:735-782 | removes exactly the manifest's workloads whose removal succeeds, and counts errors |
| WorkloadOwners.Node.RemoveByManifest | machineplane/machine/src/workload_integration.rs:718-817 | sweeps every engine, reports exactly what was removed and each workload once, and drops the owner iff there was no error |
| WorkloadOwners.RemovalInFields | machineplane/machine/src/workload_integration.rs:718-817 | which workloads stay, which announcement goes, and that the owner stays iff some listing or some removal of a workload of the manifest fails |
| WorkloadOwners.AlwaysOwned | machineplane/machine/src/workload_integration.rs:326-333 | on every run of atomic applies, removals, task creations and stops, each workload deployed with an owner key has an owner entry |
| WorkloadOwners.RemovalEffect | machineplane/machine/src/workload_integration.rs:796-809 | an error-free removal leaves no engine holding the manifest and no owner, any error keeps the owner, other manifests are untouched |
| WorkloadOwners.OwnerIsLatest | machineplane/machine/src/workload_integration.rs:103-124 | on every run the owner entry is the key of the latest keyed request or task creation since the last error-free removal, and absent if there is none |
| WorkloadOwners.ProvidingIsHistory | machineplane/machine/src/workload_integration.rs:784-794 | a manifest is announced iff it was deployed since its last removal, with or without errors |
| WorkloadOwners.OrphanIff | machineplane/machine/src/workload_integration.rs:326-333 | on every run of atomic handlers a manifest has an owner and nothing hosted iff a recorded owner stands and every workload of it hosted so far was swept without a fault on it, replaced or stopped |
| WorkloadOwners.RemovalOrphansIff | machineplane/machine/src/workload_integration.rs:773-809 | a removal leaves an owner of nothing iff there was an owner, some error occurred, and none on a workload of the manifest |
| WorkloadOwners.OrphansHappen | machineplane/machine/src/workload_integration.rs:773-809 | a failed deployment, a fault on another engine, and another manifest in the same place each leave an owner of nothing |
| WorkloadOwners.RemovalKeepsAnnounced | machineplane/machine/src/workload_integration.rs:735-794 | if every hosted manifest is announced, an atomic removal keeps that iff it meets no fault on a workload of its manifest |
| WorkloadOwners.AnnouncedThroughout | machineplane/machine/src/workload_integration.rs:735-794 | a run of atomic handlers announces every hosted manifest throughout iff none of its removals leaves a workload behind |
| WorkloadOwners.UnannouncedIff | machineplane/machine/src/workload_integration.rs:735-794 | on every run of atomic handlers a hosted workload is unannounced iff a removal that failed on it was the last deployment or removal of its manifest, and its place was not taken |
| WorkloadOwners.FailedRemovalHides | machineplane/machine/src/workload_integration.rs:784-794 | a deployment and a removal whose listing fails leave a hosted manifest unannounced |
| OwnerRace.OwnerIffKept | machineplane/machine/src/workload_integration.rs:103-124 | on every interleaving a manifest has an owner iff some record of it was not followed by a clean drop |
| OwnerRace.UnlistedIsLate | machineplane/machine/src/workload_integration.rs:735-782 | on every interleaving, what a removal without errors will not remove was hosted after it listed the engine |
| OwnerRace.PendingWasThere | machineplane/machine/src/workload_integration.rs:743-753 | what a removal has still to take was a workload of its manifest when it listed the engine |
| OwnerRace.UninterruptedApply | machineplane/machine/src/workload_integration.rs:306-428 | run without interruption, the steps of an apply are the one atomic apply |
| OwnerRace.OwnedIffRecordedLast | machineplane/machine/src/workload_integration.rs:103-124 | a hosted signed workload has an owner iff the last record or clean drop of its manifest was a record |
| OwnerRace.OwnerlessIffRaced | machineplane/machine/src/workload_integration.rs:306-428 | on every interleaving of any number of calls, a signed workload is without an owner iff its apply recorded before the drop of a clean removal and hosted after that removal listed the engine, and no owner was recorded since |
| OwnerRace.LostIffRaced | machineplane/machine/src/workload_integration.rs:718-817 | over all schedules of one keyed apply and one fault-free removal, the owner is lost iff recorded before the drop and hosted after the list |
| OwnerRace.RemovalBetweenHappens | machineplane/machine/src/workload_integration.rs:326-333 | a removal between recording and hosting loses the owner |
| OwnerRace.ApplyBetweenHappens | machineplane/machine/src/workload_integration.rs:784-798 | a whole apply between listing and withdrawal loses the owner and hides the workload, with no fault |
| OwnerRace.ProvidingIffKept | machineplane/machine/src/workload_integration.rs:784-794 | on every interleaving a manifest is announced iff some announcement of it was not withdrawn since |
| OwnerRace.PendingOrMissed | machineplane/machine/src/workload_integration.rs:735-782 | of a workload of its manifest, a removal that has listed the engine has it on its list, failed on it, or listed the engine before it came |
| OwnerRace.UnannouncedIffHidden | machineplane/machine/src/workload_integration.rs:784-794 | on every interleaving a hosted workload is not announced iff nothing was announced since it was hosted, or the last withdrawal of its manifest was by a removal that failed on it or listed its engine before it was hosted |
| OwnerRace.AnnounceOutstanding | machineplane/machine/src/workload_integration.rs:406-425 | in the first case the apply that hosted it has yet to announce it |
| OwnerRace.HiddenIffRaced | machineplane/machine/src/workload_integration.rs:718-817 | over all schedules of one apply and one fault-free removal, the workload ends up hosted and unannounced iff hosted after the list and announced before the withdrawal |
| OwnerRace.FaultHides | machineplane/machine/src/workload_integration.rs:773-794 | a removal that cannot list the engine hides the workload |
| OwnerRace.EmptyIffTouched | machineplane/machine/src/workload_integration.rs:796-809 | on every interleaving an owner has nothing hosted iff a record is kept and every slot that had a workload of the manifest was filled again, taken or stopped |

## Left out

- Floating-point rounding of scores, shares and loads, and NaN: exact reals stand in for them.
- Publishing proposals, and errors of deploy and delegate calls, which the scheduler ignores: network.
- RoundRobinFairness.FairPerPeriod: stated for counter values without a wrap; NodeSelection carries it to the wrapping counter.
- RoundRobinFairness.FairAlways: the same.
- NodeSelection.CounterFairPerPeriod: across a wrap that is not a whole number of rounds only the case of one candidate per call is settled.
- NodeSelection.Scheduler.SelectRoundRobin: in a debug build the addition stops the program at the wrap, where the model wraps as a release build does.
- ProviderCache.StoredIffRecent: needs a strictly increasing clock, since equal last-seen times are broken by list position, and runs of sightings only.
- ProviderCache.ProviderManager.FinishQuery: an answer that arrives after a timeout may still be taken, which the program's dropped channel prevents; this only adds runs.
- WorkloadOwners.Node.RemoveByManifest: the error for a registry that was never initialised.
- Host metric collection, manifest decryption, replica rewriting and engine choice: inputs.
- Envelope parsing, canonical bytes, base64 and signatures: parameters of the verification.
- Local provider announcements beyond the set of provided manifests, background tasks and DHT queries: plumbing around the modelled state.
- `DefaultScore`, `DebugAssignments`, statistics getters and log output: easy or without effect.
- The `raft`, REST, CLI and container-engine code.
