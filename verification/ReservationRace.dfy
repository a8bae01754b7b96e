/**
 `reserve_capacity` with its locks as they are (machineplane/machine/src/resource_verifier.rs:192-272):
 the sum of the holds is read under one lock, compared with the resource snapshot under
 another, and the hold inserted under a third, and other calls run in between. The snapshot
 may change at any time; at most k calls are ever between reading the sum and inserting.
 */
module ReservationRace {
  import opened Basics
  import opened Reservations

  /** The sums a call has read. */
  datatype Reading = Reading(cpu: nat, memory: nat, storage: nat) {
    function Sum(r: Resource): nat {
      match r case Cpu => cpu case Memory => memory case Storage => storage
    }
  }

  /** A call that has passed its comparison: what it will insert, and under which id. */
  datatype Claim = Claim(id: string, hold: Hold)

  datatype Shared = Shared(holds: map<string, Hold>, readings: map<nat, Reading>, claims: map<nat, Claim>)

  datatype Action =
    | PruneAt(now: nat)                                          // the prune at the start of any call
    | RefreshAt(now: nat, id: string, manifest: Option<string>)  // the early return
    | ReadSum(call: nat)                                         // the fold over the holds
    | Compare(call: nat, id: string, manifest: Option<string>, request: Request)  // against the snapshot: go on
    | Refuse(call: nat, request: Request)                        // against the snapshot: give up
    | Finish(call: nat, now: nat)                                // the second lookup: refresh or insert

  /** The request fits beside the sums read, by the snapshot in force now. */
  ghost predicate FitsReading(res: SystemResources, seen: Reading, q: Request) {
    forall r: Resource :: q.Needed(r) <= SatSub(res.Available(r), seen.Sum(r))
  }

  ghost predicate Enabled(res: SystemResources, k: nat, s: Shared, a: Action) {
    match a
    case PruneAt(_) => true
    case RefreshAt(_, id, _) => id in s.holds
    case ReadSum(call) => call !in s.readings && call !in s.claims && |s.readings| + |s.claims| < k
    case Compare(call, _, _, request) => call in s.readings && call !in s.claims && FitsReading(res, s.readings[call], request)
    case Refuse(call, request) => call in s.readings && !FitsReading(res, s.readings[call], request)
    case Finish(call, _) => call in s.claims
  }

  ghost function ReadingOf(holds: map<string, Hold>): Reading {
    Reading(Reserved(holds, Cpu), Reserved(holds, Memory), Reserved(holds, Storage))
  }

  /** The expiry time is only known when the hold is inserted. */
  ghost function Exec(s: Shared, a: Action): Shared {
    match a
    case PruneAt(now) => s.(holds := Live(s.holds, now))
    case RefreshAt(now, id, m) =>
      if id in s.holds then s.(holds := s.holds[id := s.holds[id].Refreshed(now, m)]) else s
    case ReadSum(call) => s.(readings := s.readings[call := ReadingOf(s.holds)])
    case Compare(call, id, m, q) =>
      s.(readings := s.readings - {call}, claims := s.claims[call := Claim(id, NewHold(0, m, q))])
    case Refuse(call, _) => s.(readings := s.readings - {call})
    case Finish(call, now) =>
      if call !in s.claims then s
      else Shared(Insert(s.holds, s.claims[call], now), s.readings, s.claims - {call})
  }

  function Insert(holds: map<string, Hold>, c: Claim, now: nat): map<string, Hold> {
    if c.id in holds then holds[c.id := holds[c.id].Refreshed(now, c.hold.manifest)]
    else holds[c.id := c.hold.(expiresAt := now + RESERVATION_HOLD)]
  }

  /** The shared state after the first n actions. */
  ghost function Reached(actions: seq<Action>, n: nat): Shared
    requires n <= |actions|
  {
    if n == 0 then Shared(map[], map[], map[]) else Exec(Reached(actions, n - 1), actions[n - 1])
  }

  /** snapshots[j] is the resource snapshot in force at action j. */
  ghost predicate EnabledAt(snapshots: seq<SystemResources>, k: nat, actions: seq<Action>, j: int) {
    0 <= j < |actions| == |snapshots| && Enabled(snapshots[j], k, Reached(actions, j), actions[j])
  }

  ghost predicate Schedule(snapshots: seq<SystemResources>, k: nat, actions: seq<Action>) {
    |snapshots| == |actions| && forall j :: 0 <= j < |actions| ==> EnabledAt(snapshots, k, actions, j)
  }

  /** The largest available amount of r in the first n snapshots. */
  function MostAvailable(snapshots: seq<SystemResources>, n: nat, r: Resource): nat
    requires n <= |snapshots|
  {
    if n == 0 then 0
    else
      var most, last := MostAvailable(snapshots, n - 1, r), snapshots[n - 1].Available(r);
      if last > most then last else most
  }

  // ---------- the invariant ----------

  ghost function ClaimedHolds(claims: map<nat, Claim>): map<nat, Hold> {
    map c | c in claims :: claims[c].hold
  }

  /** What the outstanding claims will take. */
  ghost function Claimed(claims: map<nat, Claim>, r: Resource): nat {
    Held(ClaimedHolds(claims), r)
  }

  function Times(k: nat, x: nat): nat {
    if k == 0 then 0 else Times(k - 1, x) + x
  }

  lemma {:induction false} TimesIsProduct(k: nat, x: nat)
    ensures Times(k, x) == k * x
  {
    if k > 0 {
      TimesIsProduct(k - 1, x);
      assert k * x == (k - 1) * x + x;
    }
  }

  lemma {:induction false} TimesMonotone(a: nat, b: nat, x: nat)
    requires a <= b
    ensures Times(a, x) <= Times(b, x)
  {
    if a < b {
      TimesMonotone(a, b - 1, x);
    }
  }

  lemma {:induction false} TimesLarger(k: nat, x: nat, y: nat)
    requires x <= y
    ensures Times(k, x) <= Times(k, y)
  {
    if k > 0 {
      TimesLarger(k - 1, x, y);
    }
  }

  /** What a call can still take on the strength of the sum it has read. */
  function Slack(most: nat, seen: Reading, r: Resource): nat {
    SatSub(most, seen.Sum(r))
  }

  ghost function Slacks(readings: map<nat, Reading>, most: nat, r: Resource): map<nat, nat> {
    map c | c in readings :: Slack(most, readings[c], r)
  }

  /** `most` is the largest amount of r that has been available. */
  ghost predicate Invariant(most: nat, k: nat, s: Shared, r: Resource) {
    && |s.readings| + |s.claims| <= k
    && (forall c :: c in s.claims ==> s.claims[c].hold.Amount(r) <= most)
    && Held(s.holds, r) + Claimed(s.claims, r) + MapSum(Slacks(s.readings, most, r)) <= Times(k, most)
  }

  lemma {:induction false} HeldAtMost(holds: map<nat, Hold>, r: Resource, bound: nat)
    requires forall c :: c in holds ==> holds[c].Amount(r) <= bound
    ensures Held(holds, r) <= Times(|holds|, bound)
    decreases |holds|
  {
    if holds == map[] {
      assert Amounts(holds, r) == map[];
    } else {
      assert holds.Keys != {};
      var c :| c in holds;
      HeldRemove(holds, c, r);
      assert (holds - {c}).Keys == holds.Keys - {c};
      HeldAtMost(holds - {c}, r, bound);
    }
  }

  lemma {:induction false} SlackAtMost(m: map<nat, nat>, bound: nat)
    requires forall c :: c in m ==> m[c] <= bound
    ensures MapSum(m) <= Times(|m|, bound)
    decreases |m|
  {
    if m != map[] {
      assert m.Keys != {};
      var c :| c in m;
      MapSumRemove(m, c);
      assert (m - {c}).Keys == m.Keys - {c};
      SlackAtMost(m - {c}, bound);
    }
  }

  lemma {:induction false} SlacksAtMost(readings: map<nat, Reading>, most: nat, r: Resource)
    ensures MapSum(Slacks(readings, most, r)) <= Times(|readings|, most)
  {
    assert Slacks(readings, most, r).Keys == readings.Keys;
    SlackAtMost(Slacks(readings, most, r), most);
  }

  lemma {:induction false} TimesAdd(a: nat, b: nat, x: nat)
    ensures Times(a + b, x) == Times(a, x) + Times(b, x)
  {
    if b > 0 {
      TimesAdd(a, b - 1, x);
    }
  }

  lemma {:induction false} SlacksAdd(readings: map<nat, Reading>, call: nat, seen: Reading, most: nat, r: Resource)
    ensures Slacks(readings[call := seen], most, r) == Slacks(readings, most, r)[call := Slack(most, seen, r)]
  {
  }

  lemma {:induction false} OneReadingMore(readings: map<nat, Reading>, call: nat, seen: Reading, most: nat, r: Resource)
    requires call !in readings
    ensures |readings[call := seen]| == |readings| + 1
    ensures MapSum(Slacks(readings[call := seen], most, r)) == MapSum(Slacks(readings, most, r)) + Slack(most, seen, r)
  {
    assert readings[call := seen].Keys == readings.Keys + {call};
    SlacksAdd(readings, call, seen, most, r);
    MapSumAdd(Slacks(readings, most, r), call, Slack(most, seen, r));
  }

  lemma {:induction false} OneReadingLess(readings: map<nat, Reading>, call: nat, most: nat, r: Resource)
    requires call in readings
    ensures |readings - {call}| == |readings| - 1
    ensures MapSum(Slacks(readings, most, r)) == MapSum(Slacks(readings - {call}, most, r)) + Slack(most, readings[call], r)
  {
    assert (readings - {call}).Keys == readings.Keys - {call};
    assert Slacks(readings - {call}, most, r) == Slacks(readings, most, r) - {call};
    MapSumRemove(Slacks(readings, most, r), call);
  }

  /** The sum read leaves no more slack than there is beside the holds. */
  lemma {:induction false} ReadingSlack(holds: map<string, Hold>, most: nat, r: Resource)
    requires most <= Limit(r)
    ensures Slack(most, ReadingOf(holds), r) == SatSub(most, Held(holds, r))
  {
    match r case Cpu => case Memory => case Storage =>
  }

  lemma {:induction false} RoomForOneMore(held: nat, claimed: nat, slack: nat, readings: nat, claims: nat, k: nat, most: nat)
    requires held + claimed + slack <= Times(k, most) && readings + claims < k
    requires slack <= Times(readings, most) && claimed <= Times(claims, most)
    ensures held + claimed + slack + SatSub(most, held) <= Times(k, most)
  {
    if held < most {
      TimesAdd(readings, claims, most);
      TimesMonotone(readings + claims + 1, k, most);
    }
  }

  /** A new reading still fits: what it can take and what is held make one full amount at most. */
  lemma {:induction false} AddReading(s: Shared, call: nat, r: Resource, k: nat, most: nat)
    requires Invariant(most, k, s, r) && most <= Limit(r)
    requires call !in s.readings && |s.readings| + |s.claims| < k
    ensures Invariant(most, k, s.(readings := s.readings[call := ReadingOf(s.holds)]), r)
  {
    OneReadingMore(s.readings, call, ReadingOf(s.holds), most, r);
    ReadingSlack(s.holds, most, r);
    SlacksAtMost(s.readings, most, r);
    ClaimsAtMost(s.claims, r, most);
    RoomForOneMore(Held(s.holds, r), Claimed(s.claims, r), MapSum(Slacks(s.readings, most, r)),
                   |s.readings|, |s.claims|, k, most);
  }

  /** A reading becomes a claim within its slack. */
  lemma {:induction false} AddClaim(s: Shared, call: nat, c: Claim, r: Resource, k: nat, most: nat)
    requires Invariant(most, k, s, r)
    requires call in s.readings && call !in s.claims
    requires c.hold.Amount(r) <= Slack(most, s.readings[call], r)
    ensures Invariant(most, k, s.(readings := s.readings - {call}, claims := s.claims[call := c]), r)
  {
    ClaimAdds(s.claims, call, c, r);
    OneClaimMore(s.claims, call, c);
    OneReadingLess(s.readings, call, most, r);
  }

  lemma {:induction false} OneClaimMore(claims: map<nat, Claim>, call: nat, c: Claim)
    requires call !in claims
    ensures |claims[call := c]| == |claims| + 1
  {
    assert claims[call := c].Keys == claims.Keys + {call};
  }

  lemma {:induction false} ClaimAdds(claims: map<nat, Claim>, call: nat, c: Claim, r: Resource)
    requires call !in claims
    ensures Claimed(claims[call := c], r) == Claimed(claims, r) + c.hold.Amount(r)
  {
    assert ClaimedHolds(claims[call := c]) == ClaimedHolds(claims)[call := c.hold];
    HeldAdd(ClaimedHolds(claims), call, c.hold, r);
  }

  lemma {:induction false} ClaimsAtMost(claims: map<nat, Claim>, r: Resource, bound: nat)
    requires forall c :: c in claims ==> claims[c].hold.Amount(r) <= bound
    ensures Claimed(claims, r) <= Times(|claims|, bound)
  {
    assert ClaimedHolds(claims).Keys == claims.Keys;
    HeldAtMost(ClaimedHolds(claims), r, bound);
  }

  /** Finishing a call turns its claim into a hold, or drops it. */
  lemma {:induction false} LandClaim(s: Shared, call: nat, now: nat, r: Resource, k: nat, most: nat)
    requires Invariant(most, k, s, r) && call in s.claims
    ensures Invariant(most, k, Exec(s, Finish(call, now)), r)
  {
    OneClaimLess(s.claims, call, r);
    InsertHolds(s.holds, s.claims[call], now, r);
  }

  lemma {:induction false} OneClaimLess(claims: map<nat, Claim>, call: nat, r: Resource)
    requires call in claims
    ensures |claims - {call}| == |claims| - 1
    ensures Claimed(claims, r) == Claimed(claims - {call}, r) + claims[call].hold.Amount(r)
  {
    assert (claims - {call}).Keys == claims.Keys - {call};
    assert ClaimedHolds(claims - {call}) == ClaimedHolds(claims) - {call};
    HeldRemove(ClaimedHolds(claims), call, r);
  }

  lemma {:induction false} InsertHolds(holds: map<string, Hold>, c: Claim, now: nat, r: Resource)
    ensures Held(Insert(holds, c, now), r) <= Held(holds, r) + c.hold.Amount(r)
  {
    if c.id in holds {
      HeldRefresh(holds, c.id, now, c.hold.manifest, r);
    } else {
      HeldAdd(holds, c.id, c.hold.(expiresAt := now + RESERVATION_HOLD), r);
    }
  }

  lemma {:induction false} NewAmount(now: nat, m: Option<string>, q: Request, r: Resource)
    ensures NewHold(now, m, q).Amount(r) == q.Needed(r)
  {
    match r case Cpu => case Memory => case Storage =>
  }

  lemma {:induction false} StepKeeps(res: SystemResources, most: nat, k: nat, s: Shared, a: Action, r: Resource)
    requires Enabled(res, k, s, a) && res.Available(r) <= most <= Limit(r) && Invariant(most, k, s, r)
    ensures Invariant(most, k, Exec(s, a), r)
  {
    match a
    case PruneAt(now) => PruneShrinks(s.holds, now, r);
    case RefreshAt(now, id, m) => HeldRefresh(s.holds, id, now, m, r);
    case ReadSum(call) => AddReading(s, call, r, k, most);
    case Compare(call, id, m, q) =>
      NewAmount(0, m, q, r);
      assert q.Needed(r) <= SatSub(res.Available(r), s.readings[call].Sum(r));
      AddClaim(s, call, Claim(id, NewHold(0, m, q)), r, k, most);
    case Refuse(call, _) => OneReadingLess(s.readings, call, most, r);
    case Finish(call, now) => LandClaim(s, call, now, r, k, most);
  }

  lemma {:induction false} NothingHeld(most: nat, k: nat, r: Resource)
    ensures Invariant(most, k, Shared(map[], map[], map[]), r)
  {
    assert Amounts<string>(map[], r) == map[] && Amounts(ClaimedHolds(map[]), r) == map[];
    assert Slacks(map[], most, r) == map[];
  }

  /** A larger amount gives each reading that much more slack, and each of the k calls that much more room. */
  lemma {:induction false} SlackGrows(readings: map<nat, Reading>, most: nat, more: nat, r: Resource)
    requires most <= more
    ensures MapSum(Slacks(readings, more, r)) <= MapSum(Slacks(readings, most, r)) + Times(|readings|, more - most)
    decreases |readings|
  {
    if readings == map[] {
      assert Slacks(readings, more, r) == map[];
    } else {
      assert readings.Keys != {};
      var c :| c in readings;
      OneReadingLess(readings, c, most, r);
      OneReadingLess(readings, c, more, r);
      SlackGrows(readings - {c}, most, more, r);
    }
  }

  lemma {:induction false} TimesDifference(k: nat, x: nat, y: nat)
    requires x <= y
    ensures Times(k, y) == Times(k, x) + Times(k, y - x)
  {
    if k > 0 {
      TimesDifference(k - 1, x, y);
    }
  }

  lemma {:induction false} MoreIsAvailable(most: nat, more: nat, k: nat, s: Shared, r: Resource)
    requires Invariant(most, k, s, r) && most <= more
    ensures Invariant(more, k, s, r)
  {
    SlackGrows(s.readings, most, more, r);
    RoomGrows(Held(s.holds, r) + Claimed(s.claims, r), MapSum(Slacks(s.readings, most, r)),
              MapSum(Slacks(s.readings, more, r)), |s.readings|, k, most, more);
  }

  lemma {:induction false} RoomGrows(taken: nat, slack: nat, slack': nat, readings: nat, k: nat, most: nat, more: nat)
    requires taken + slack <= Times(k, most) && readings <= k && most <= more
    requires slack' <= slack + Times(readings, more - most)
    ensures taken + slack' <= Times(k, more)
  {
    TimesDifference(k, most, more);
    TimesMonotone(readings, k, more - most);
  }

  lemma {:induction false} MostBelow(snapshots: seq<SystemResources>, n: nat, r: Resource)
    requires n <= |snapshots|
    ensures MostAvailable(snapshots, n, r) <= Limit(r)
  {
    if n > 0 {
      MostBelow(snapshots, n - 1, r);
      AvailableBelow(snapshots[n - 1], r);
    }
  }

  lemma {:induction false} InvariantHolds(snapshots: seq<SystemResources>, k: nat, actions: seq<Action>, n: nat, r: Resource)
    requires Schedule(snapshots, k, actions) && n <= |actions|
    ensures Invariant(MostAvailable(snapshots, n, r), k, Reached(actions, n), r)
  {
    if n == 0 {
      NothingHeld(0, k, r);
    } else {
      InvariantHolds(snapshots, k, actions, n - 1, r);
      assert EnabledAt(snapshots, k, actions, n - 1);
      var most := MostAvailable(snapshots, n, r);
      MostBelow(snapshots, n, r);
      MoreIsAvailable(MostAvailable(snapshots, n - 1, r), most, k, Reached(actions, n - 1), r);
      StepKeeps(snapshots[n - 1], most, k, Reached(actions, n - 1), actions[n - 1], r);
    }
  }

  /**
   With at most k calls between reading the sum and inserting, held plus claimed never exceeds
   k times the largest amount that has been available.
   */
  lemma {:induction false} InterleavedBound(snapshots: seq<SystemResources>, k: nat, actions: seq<Action>, n: nat, r: Resource)
    requires Schedule(snapshots, k, actions) && n <= |actions|
    ensures Held(Reached(actions, n).holds, r) + Claimed(Reached(actions, n).claims, r) <= k * MostAvailable(snapshots, n, r)
  {
    InvariantHolds(snapshots, k, actions, n, r);
    TimesIsProduct(k, MostAvailable(snapshots, n, r));
  }

  function Fixed(res: SystemResources, n: nat): (snapshots: seq<SystemResources>)
    ensures |snapshots| == n
  {
    seq(n, _ => res)
  }

  lemma {:induction false} FixedAvailable(res: SystemResources, size: nat, n: nat, r: Resource)
    requires n <= size
    ensures MostAvailable(Fixed(res, size), n, r) <= res.Available(r)
  {
    if n > 0 {
      FixedAvailable(res, size, n - 1, r);
    }
  }

  /** With a fixed snapshot that is k times the available amount; k = 1 means no overcommit. */
  lemma {:induction false} FixedSnapshotBound(res: SystemResources, k: nat, actions: seq<Action>, n: nat, r: Resource)
    requires Schedule(Fixed(res, |actions|), k, actions) && n <= |actions|
    ensures Held(Reached(actions, n).holds, r) <= k * res.Available(r)
  {
    var most := MostAvailable(Fixed(res, |actions|), n, r);
    InterleavedBound(Fixed(res, |actions|), k, actions, n, r);
    FixedAvailable(res, |actions|, n, r);
    TimesIsProduct(k, most);
    TimesIsProduct(k, res.Available(r));
    TimesLarger(k, most, res.Available(r));
  }

  // ---------- without interruption ----------

  lemma {:induction false} ReadingFits(res: SystemResources, holds: map<string, Hold>, q: Request)
    ensures FitsReading(res, ReadingOf(holds), q) <==> Verdict(State(res, holds), q) == Accepted
  {
    VerdictIsFits(State(res, holds), q);
    forall r: Resource
      ensures SatSub(res.Available(r), ReadingOf(holds).Sum(r)) == Reservable(State(res, holds), r)
    {
      match r case Cpu => case Memory => case Storage =>
    }
  }

  /** Run without interruption, the steps of a call are the one atomic reserve call. */
  lemma {:induction false} UninterruptedIsReserve(res: SystemResources, holds: map<string, Hold>, now: nat, call: nat,
                                                  id: string, m: Option<string>, q: Request)
    ensures var s := Exec(Shared(holds, map[], map[]), PruneAt(now));
            var (t, outcome) := Reserve(State(res, holds), now, id, m, q);
            if id in s.holds then outcome == Accepted && Exec(s, RefreshAt(now, id, m)) == Shared(t.holds, map[], map[])
            else
              var read := Exec(s, ReadSum(call));
              && (outcome == Accepted <==> FitsReading(res, read.readings[call], q))
              && (outcome == Accepted ==>
                    Exec(Exec(read, Compare(call, id, m, q)), Finish(call, now)) == Shared(t.holds, map[], map[]))
              && (outcome != Accepted ==> Exec(read, Refuse(call, q)) == Shared(t.holds, map[], map[]))
  {
    var live := Live(holds, now);
    ReadingFits(res, live, q);
    if id !in live {
      var read := Exec(Shared(live, map[], map[]), ReadSum(call));
      assert read.readings - {call} == map[];
      var claimed := Exec(read, Compare(call, id, m, q));
      assert claimed.claims - {call} == map[];
      assert NewHold(0, m, q).(expiresAt := now + RESERVATION_HOLD) == NewHold(now, m, q);
    }
  }

  // ---------- the bound is reached ----------

  /** Distinct request ids. */
  function Id(i: nat): (s: string)
    ensures |s| == i
  {
    seq(i, _ => 'r')
  }

  function AllOf(res: SystemResources, r: Resource): (q: Request)
    ensures q.Needed(r) == res.Available(r)
    ensures forall r' :: r' != r ==> q.Needed(r') == 0
  {
    AvailableBelow(res, r);
    var a := res.Available(r);
    match r
    case Cpu => Request(a, 0, 0, 1)
    case Memory => Request(0, a, 0, 1)
    case Storage => Request(0, 0, a, 1)
  }

  /** k calls read the sum, then all compare, then all insert. */
  function Rush(q: Request, k: nat): (actions: seq<Action>)
    ensures Phases(actions, q, k)
  {
    seq(3 * k, i requires 0 <= i < 3 * k =>
      if i < k then ReadSum(i) else if i < 2 * k then Compare(i - k, Id(i - k), None, q) else Finish(i - 2 * k, 0))
  }

  function NothingRead(): Reading {
    Reading(0, 0, 0)
  }

  ghost function RushClaims(h: Hold, lo: nat, hi: nat): map<nat, Claim> {
    map c: nat | lo <= c < hi :: Claim(Id(c), h)
  }

  /** The same calls, before they compare. */
  ghost function RushReadings(h: Hold, lo: nat, hi: nat): map<nat, Reading> {
    map c | c in RushClaims(h, lo, hi) :: NothingRead()
  }

  lemma {:induction false} NothingIsRead()
    ensures ReadingOf(map[]) == NothingRead()
  {
    assert forall r: Resource :: Amounts<string>(map[], r) == map[];
  }

  lemma {:induction false} ReachedStep(actions: seq<Action>, n: nat, a: Action)
    requires n < |actions| && actions[n] == a
    ensures Reached(actions, n + 1) == Exec(Reached(actions, n), a)
  {
  }

  /** Calls 0 to n-1 have read. */
  ghost function AfterReads(h: Hold, n: nat): Shared {
    Shared(map[], RushReadings(h, 0, n), map[])
  }

  /** All k calls have read, and calls 0 to n-1 have compared. */
  ghost function AfterCompares(h: Hold, n: nat, k: nat): Shared {
    Shared(map[], RushReadings(h, n, k), RushClaims(h, 0, n))
  }

  lemma {:induction false} NothingHappened(h: Hold, k: nat)
    ensures AfterReads(h, 0) == Shared(map[], map[], map[])
    ensures AfterCompares(h, 0, k) == AfterReads(h, k)
    ensures AfterCompares(h, k, k) == Shared(map[], map[], RushClaims(h, 0, k))
  {
    assert RushReadings(h, 0, 0) == map[] && RushClaims(h, 0, 0) == map[] && RushReadings(h, k, k) == map[];
  }

  lemma {:induction false} OneReads(h: Hold, n: nat)
    ensures Exec(AfterReads(h, n), ReadSum(n)) == AfterReads(h, n + 1)
  {
    NothingIsRead();
    assert RushReadings(h, 0, n)[n := NothingRead()] == RushReadings(h, 0, n + 1);
  }

  lemma {:induction false} OneCompares(q: Request, n: nat, k: nat)
    requires n < k
    ensures var h := NewHold(0, None, q);
            Exec(AfterCompares(h, n, k), Compare(n, Id(n), None, q)) == AfterCompares(h, n + 1, k)
  {
    var h := NewHold(0, None, q);
    assert RushReadings(h, n, k) - {n} == RushReadings(h, n + 1, k);
    assert RushClaims(h, 0, n)[n := Claim(Id(n), h)] == RushClaims(h, 0, n + 1);
  }

  /** A schedule in three phases: call j reads, compares and finishes in its turn. */
  ghost predicate Phases(actions: seq<Action>, q: Request, k: nat) {
    |actions| == 3 * k && forall j :: 0 <= j < k ==> InTurn(actions, q, k, j)
  }

  predicate InTurn(actions: seq<Action>, q: Request, k: nat, j: nat)
    requires j < k && |actions| == 3 * k
  {
    actions[j] == ReadSum(j) && actions[k + j] == Compare(j, Id(j), None, q) && actions[2 * k + j] == Finish(j, 0)
  }

  lemma {:induction false} ReadInTurn(actions: seq<Action>, q: Request, k: nat, n: nat)
    requires Phases(actions, q, k) && n <= k
    ensures Reached(actions, n) == AfterReads(NewHold(0, None, q), n)
  {
    if n == 0 {
      NothingHappened(NewHold(0, None, q), k);
    } else {
      ReadInTurn(actions, q, k, n - 1);
      assert InTurn(actions, q, k, n - 1);
      ReachedStep(actions, n - 1, ReadSum(n - 1));
      OneReads(NewHold(0, None, q), n - 1);
    }
  }

  lemma {:induction false} CompareInTurn(actions: seq<Action>, q: Request, k: nat, n: nat)
    requires Phases(actions, q, k) && n <= k
    ensures Reached(actions, k + n) == AfterCompares(NewHold(0, None, q), n, k)
  {
    if n == 0 {
      ReadInTurn(actions, q, k, k);
      NothingHappened(NewHold(0, None, q), k);
    } else {
      CompareInTurn(actions, q, k, n - 1);
      CompareNext(actions, q, k, n);
    }
  }

  lemma {:induction false} CompareNext(actions: seq<Action>, q: Request, k: nat, n: nat)
    requires Phases(actions, q, k) && 0 < n <= k
    requires Reached(actions, k + n - 1) == AfterCompares(NewHold(0, None, q), n - 1, k)
    ensures Reached(actions, k + n) == AfterCompares(NewHold(0, None, q), n, k)
  {
    assert InTurn(actions, q, k, n - 1);
    ReachedStep(actions, k + n - 1, Compare(n - 1, Id(n - 1), None, q));
    OneCompares(q, n - 1, k);
  }

  /** Calls 0 to i-1 have inserted and calls i to k-1 are about to. */
  ghost predicate Landed(s: Shared, h: Hold, r: Resource, i: nat, k: nat) {
    && s.claims == RushClaims(h, i, k)
    && (forall id :: id in s.holds ==> |id| < i)
    && Held(s.holds, r) == Times(i, h.Amount(r))
  }

  lemma {:induction false} NoneLanded(h: Hold, r: Resource, k: nat)
    ensures Landed(Shared(map[], map[], RushClaims(h, 0, k)), h, r, 0, k)
  {
    assert Amounts<string>(map[], r) == map[];
  }

  lemma {:induction false} LandInTurn(actions: seq<Action>, q: Request, r: Resource, k: nat, i: nat)
    requires Phases(actions, q, k) && i <= k
    ensures Landed(Reached(actions, 2 * k + i), NewHold(0, None, q), r, i, k)
  {
    if i == 0 {
      CompareInTurn(actions, q, k, k);
      NothingHappened(NewHold(0, None, q), k);
      NoneLanded(NewHold(0, None, q), r, k);
    } else {
      LandInTurn(actions, q, r, k, i - 1);
      LandNext(actions, q, r, k, i);
    }
  }

  lemma {:induction false} LandNext(actions: seq<Action>, q: Request, r: Resource, k: nat, i: nat)
    requires Phases(actions, q, k) && 0 < i <= k
    requires Landed(Reached(actions, 2 * k + i - 1), NewHold(0, None, q), r, i - 1, k)
    ensures Landed(Reached(actions, 2 * k + i), NewHold(0, None, q), r, i, k)
  {
    assert InTurn(actions, q, k, i - 1);
    ReachedStep(actions, 2 * k + i - 1, Finish(i - 1, 0));
    OneLands(Reached(actions, 2 * k + i - 1), NewHold(0, None, q), r, i - 1, k);
  }

  lemma {:induction false} OneLands(s: Shared, h: Hold, r: Resource, i: nat, k: nat)
    requires i < k && Landed(s, h, r, i, k)
    ensures Landed(Exec(s, Finish(i, 0)), h, r, i + 1, k)
  {
    assert s.claims[i] == Claim(Id(i), h) && Id(i) !in s.holds;
    HeldAdd(s.holds, Id(i), h.(expiresAt := RESERVATION_HOLD), r);
    assert s.claims - {i} == RushClaims(h, i + 1, k);
  }

  lemma {:induction false} AllFitsNothing(res: SystemResources, r: Resource)
    ensures FitsReading(res, NothingRead(), AllOf(res, r))
  {
    forall r': Resource
      ensures AllOf(res, r).Needed(r') <= SatSub(res.Available(r'), NothingRead().Sum(r'))
    {
      match r' case Cpu => case Memory => case Storage =>
    }
  }

  lemma {:induction false} ReadingsGrow(h: Hold, n: nat)
    ensures RushReadings(h, 0, n + 1).Keys == RushReadings(h, 0, n).Keys + {n}
    ensures n !in RushReadings(h, 0, n).Keys
  {
  }

  lemma {:induction false} RushCount(h: Hold, n: nat)
    ensures |RushReadings(h, 0, n)| == n
  {
    if n == 0 {
      assert RushReadings(h, 0, 0) == map[];
    } else {
      RushCount(h, n - 1);
      ReadingsGrow(h, n - 1);
    }
  }

  lemma {:induction false} MayRead(res: SystemResources, k: nat, h: Hold, n: nat)
    requires n < k
    ensures Enabled(res, k, AfterReads(h, n), ReadSum(n))
  {
    RushCount(h, n);
  }

  lemma {:induction false} MayCompare(res: SystemResources, k: nat, q: Request, n: nat)
    requires FitsReading(res, NothingRead(), q) && n < k
    ensures Enabled(res, k, AfterCompares(NewHold(0, None, q), n, k), Compare(n, Id(n), None, q))
  {
    assert RushReadings(NewHold(0, None, q), n, k)[n] == NothingRead();
  }

  lemma {:induction false} MayFinish(res: SystemResources, k: nat, s: Shared, h: Hold, n: nat)
    requires n < k && Landed(s, h, Cpu, n, k)
    ensures Enabled(res, k, s, Finish(n, 0))
  {
  }

  lemma {:induction false} EnabledBy(res: SystemResources, k: nat, s: Shared, a: Action, actions: seq<Action>, j: nat)
    requires Enabled(res, k, s, a) && j < |actions| && actions[j] == a && Reached(actions, j) == s
    ensures EnabledAt(Fixed(res, |actions|), k, actions, j)
  {
  }

  lemma {:induction false} ReadEnabled(res: SystemResources, actions: seq<Action>, q: Request, k: nat, j: nat)
    requires Phases(actions, q, k) && j < k
    ensures EnabledAt(Fixed(res, |actions|), k, actions, j)
  {
    assert InTurn(actions, q, k, j);
    ReadInTurn(actions, q, k, j);
    MayRead(res, k, NewHold(0, None, q), j);
    EnabledBy(res, k, AfterReads(NewHold(0, None, q), j), ReadSum(j), actions, j);
  }

  lemma {:induction false} CompareEnabled(res: SystemResources, actions: seq<Action>, q: Request, k: nat, j: nat, at: nat)
    requires Phases(actions, q, k) && FitsReading(res, NothingRead(), q) && j < k && at == k + j
    ensures EnabledAt(Fixed(res, |actions|), k, actions, at)
  {
    assert InTurn(actions, q, k, j);
    CompareInTurn(actions, q, k, j);
    MayCompare(res, k, q, j);
    EnabledBy(res, k, AfterCompares(NewHold(0, None, q), j, k), Compare(j, Id(j), None, q), actions, at);
  }

  lemma {:induction false} FinishEnabled(res: SystemResources, actions: seq<Action>, q: Request, k: nat, j: nat, at: nat)
    requires Phases(actions, q, k) && j < k && at == 2 * k + j
    ensures EnabledAt(Fixed(res, |actions|), k, actions, at)
  {
    assert InTurn(actions, q, k, j);
    LandInTurn(actions, q, Cpu, k, j);
    var s := Reached(actions, at);
    MayFinish(res, k, s, NewHold(0, None, q), j);
    EnabledBy(res, k, s, Finish(j, 0), actions, at);
  }

  lemma {:induction false} EnabledInTurn(res: SystemResources, actions: seq<Action>, q: Request, k: nat, j: nat)
    requires Phases(actions, q, k) && FitsReading(res, NothingRead(), q) && j < 3 * k
    ensures EnabledAt(Fixed(res, |actions|), k, actions, j)
  {
    if j < k {
      ReadEnabled(res, actions, q, k, j);
    } else if j < 2 * k {
      CompareEnabled(res, actions, q, k, j - k, j);
    } else {
      FinishEnabled(res, actions, q, k, j - 2 * k, j);
    }
  }

  lemma {:induction false} PhasesAreScheduled(res: SystemResources, actions: seq<Action>, q: Request, k: nat)
    requires Phases(actions, q, k) && FitsReading(res, NothingRead(), q)
    ensures Schedule(Fixed(res, |actions|), k, actions)
  {
    forall j | 0 <= j < |actions|
      ensures EnabledAt(Fixed(res, |actions|), k, actions, j)
    {
      EnabledInTurn(res, actions, q, k, j);
    }
  }

  /** The bound is exact: for every k some schedule holds k times the available amount. */
  lemma {:induction false} BoundIsReached(res: SystemResources, k: nat, r: Resource) returns (actions: seq<Action>)
    ensures Schedule(Fixed(res, |actions|), k, actions)
    ensures Held(Reached(actions, |actions|).holds, r) == k * res.Available(r)
  {
    var q := AllOf(res, r);
    actions := Rush(q, k);
    AllFitsNothing(res, r);
    PhasesAreScheduled(res, actions, q, k);
    LandInTurn(actions, q, r, k, k);
    NewAmount(0, None, q, r);
    TimesIsProduct(k, res.Available(r));
  }
}
