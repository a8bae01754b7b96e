/**
 Capacity reservations (machineplane/machine/src/resource_verifier.rs), each call
 taken as one atomic step. Times are nanoseconds. Machine integers are bounded:
 u32 for CPU, u64 for memory and storage, and u64 products wrap as in a release build.
 */
module Reservations {
  import opened Basics

  const U32_LIMIT: nat := 0x1_0000_0000
  const U64_LIMIT: nat := 0x1_0000_0000_0000_0000

  type U32 = x: int | 0 <= x < 0x1_0000_0000
  type U64 = x: int | 0 <= x < 0x1_0000_0000_0000_0000

  const MAX_ALLOCATION_PERCENT: nat := 90
  const MIN_FREE_MEMORY_BYTES: nat := 512 * 1024 * 1024
  const MIN_FREE_STORAGE_BYTES: nat := 1024 * 1024 * 1024
  const MAX_WORKLOADS_PER_NODE: nat := 0
  const RESERVATION_HOLD: nat := 3_000_000_000

  datatype Resource = Cpu | Memory | Storage

  /** Largest value of the machine integer that counts this resource. */
  function Limit(r: Resource): nat {
    if r == Cpu then U32_LIMIT - 1 else U64_LIMIT - 1
  }

  function SatSub(a: nat, b: nat): nat {
    if a < b then 0 else a - b
  }

  function Capped(x: nat, limit: nat): nat {
    if x > limit then limit else x
  }

  datatype SystemResources = SystemResources(
    totalCpu: U32, totalMemory: U64, totalStorage: U64,
    allocatedCpu: U32, allocatedMemory: U64, allocatedStorage: U64,
    runningWorkloads: U32)
  {
    function Total(r: Resource): nat {
      match r case Cpu => totalCpu case Memory => totalMemory case Storage => totalStorage
    }

    function Allocated(r: Resource): nat {
      match r case Cpu => allocatedCpu case Memory => allocatedMemory case Storage => allocatedStorage
    }

    function MinFree(r: Resource): nat {
      match r case Cpu => 0 case Memory => MIN_FREE_MEMORY_BYTES case Storage => MIN_FREE_STORAGE_BYTES
    }

    /** `available_cpu_milli`, `available_memory_bytes`, `available_storage_bytes`. */
    function Available(r: Resource): nat {
      var percent := Total(r) * MAX_ALLOCATION_PERCENT % U64_LIMIT / 100;
      SatSub(SatSub(percent, MinFree(r)), Allocated(r))
    }

    predicate CanAcceptMoreWorkloads() {
      MAX_WORKLOADS_PER_NODE == 0 || runningWorkloads < MAX_WORKLOADS_PER_NODE
    }
  }

  /** What is available stays clear of the machine limit and of the reserved tenth. */
  lemma {:induction false} AvailableBelow(s: SystemResources, r: Resource)
    ensures s.Available(r) < Limit(r)
    ensures s.Available(r) > 0 ==> s.Available(r) + s.Allocated(r) + s.MinFree(r) <= s.Total(r) * 90 / 100
    ensures s.Total(r) * 90 < U64_LIMIT && s.Allocated(r) + s.MinFree(r) <= s.Total(r) * 90 / 100 ==>
              s.Available(r) + s.Allocated(r) + s.MinFree(r) == s.Total(r) * 90 / 100
  {
    var product := s.Total(r) * MAX_ALLOCATION_PERCENT;
    assert product % U64_LIMIT <= product;
    assert product % U64_LIMIT / 100 <= product / 100;
  }

  /** The three amounts in the fields and numbers of the source: 512 MiB and 1 GiB stay free, of CPU nothing. */
  lemma {:induction false} AvailableInFields(s: SystemResources)
    ensures s.Available(Cpu) == var ninety := s.totalCpu * 90 / 100;
                                if ninety < s.allocatedCpu then 0 else ninety - s.allocatedCpu
    ensures s.Available(Memory) == var ninety := s.totalMemory * 90 % 0x1_0000_0000_0000_0000 / 100;
                                   if ninety < 536870912 + s.allocatedMemory then 0
                                   else ninety - 536870912 - s.allocatedMemory
    ensures s.Available(Storage) == var ninety := s.totalStorage * 90 % 0x1_0000_0000_0000_0000 / 100;
                                    if ninety < 1073741824 + s.allocatedStorage then 0
                                    else ninety - 1073741824 - s.allocatedStorage
    ensures s.CanAcceptMoreWorkloads()
  {
    assert s.totalCpu * 90 % U64_LIMIT == s.totalCpu * 90;
  }

  datatype Request = Request(cpu: U32, memory: U64, storage: U64, replicas: U32) {
    function PerReplica(r: Resource): nat {
      match r case Cpu => cpu case Memory => memory case Storage => storage
    }

    /** saturating_mul by the replica count. */
    function Needed(r: Resource): nat {
      Capped(PerReplica(r) * replicas, Limit(r))
    }
  }

  datatype Hold = Hold(cpu: nat, memory: nat, storage: nat, manifest: Option<string>, expiresAt: nat) {
    function Amount(r: Resource): nat {
      match r case Cpu => cpu case Memory => memory case Storage => storage
    }

    function Refreshed(now: nat, m: Option<string>): Hold {
      this.(expiresAt := now + RESERVATION_HOLD, manifest := if m.Some? then m else manifest)
    }
  }

  /** What a request needs of each resource, in its own fields, saturating at the machine limit. */
  lemma {:induction false} NeededInFields(q: Request)
    ensures q.Needed(Cpu) == if q.cpu * q.replicas > 4294967295 then 4294967295 else q.cpu * q.replicas
    ensures q.Needed(Memory) == if q.memory * q.replicas > 18446744073709551615 then 18446744073709551615 else q.memory * q.replicas
    ensures q.Needed(Storage) == if q.storage * q.replicas > 18446744073709551615 then 18446744073709551615 else q.storage * q.replicas
  {
  }

  lemma {:induction false} AmountInFields(h: Hold)
    ensures h.Amount(Cpu) == h.cpu && h.Amount(Memory) == h.memory && h.Amount(Storage) == h.storage
  {
  }

  function NewHold(now: nat, m: Option<string>, q: Request): Hold {
    Hold(q.Needed(Cpu), q.Needed(Memory), q.Needed(Storage), m, now + RESERVATION_HOLD)
  }

  // ---------- sums over maps ----------

  ghost function Pick<K(!new)>(m: map<K, nat>): (k: K)
    requires m != map[]
    ensures k in m
  {
    assert m.Keys != {};
    var k :| k in m; k
  }

  ghost function MapSum<K(!new)>(m: map<K, nat>): nat
    decreases |m|
  {
    if m == map[] then 0 else var k := Pick(m); m[k] + MapSum(m - {k})
  }

  lemma {:induction false} MapSumRemove<K(!new)>(m: map<K, nat>, k: K)
    requires k in m
    ensures MapSum(m) == m[k] + MapSum(m - {k})
    decreases |m|
  {
    var p := Pick(m);
    if p != k {
      MapSumRemove(m - {p}, k);
      MapSumRemove(m - {k}, p);
      assert m - {p} - {k} == m - {k} - {p};
    }
  }

  lemma {:induction false} MapSumAdd<K(!new)>(m: map<K, nat>, k: K, v: nat)
    requires k !in m
    ensures MapSum(m[k := v]) == MapSum(m) + v
  {
    MapSumRemove(m[k := v], k);
    assert m[k := v] - {k} == m;
  }

  lemma {:induction false} MapSumUpdate<K(!new)>(m: map<K, nat>, k: K, v: nat)
    requires k in m
    ensures MapSum(m[k := v]) + m[k] == MapSum(m) + v
  {
    MapSumRemove(m, k);
    MapSumRemove(m[k := v], k);
    assert m[k := v] - {k} == m - {k};
  }

  lemma {:induction false} MapSumSubset<K(!new)>(part: map<K, nat>, whole: map<K, nat>)
    requires forall k :: k in part ==> k in whole && part[k] == whole[k]
    ensures MapSum(part) <= MapSum(whole)
    decreases |part|
  {
    if part != map[] {
      var k := Pick(part);
      MapSumRemove(whole, k);
      MapSumSubset(part - {k}, whole - {k});
    }
  }

  ghost function Amounts<K(!new)>(holds: map<K, Hold>, r: Resource): map<K, nat> {
    map k | k in holds :: holds[k].Amount(r)
  }

  /** True sum of what is held, with no machine limit. */
  ghost function Held<K(!new)>(holds: map<K, Hold>, r: Resource): nat {
    MapSum(Amounts(holds, r))
  }

  lemma {:induction false} HeldAdd<K(!new)>(holds: map<K, Hold>, k: K, h: Hold, r: Resource)
    requires k !in holds
    ensures Held(holds[k := h], r) == Held(holds, r) + h.Amount(r)
  {
    assert Amounts(holds[k := h], r) == Amounts(holds, r)[k := h.Amount(r)];
    MapSumAdd(Amounts(holds, r), k, h.Amount(r));
  }

  lemma {:induction false} HeldRemove<K(!new)>(holds: map<K, Hold>, k: K, r: Resource)
    requires k in holds
    ensures Held(holds, r) == Held(holds - {k}, r) + holds[k].Amount(r)
  {
    assert Amounts(holds - {k}, r) == Amounts(holds, r) - {k};
    MapSumRemove(Amounts(holds, r), k);
  }

  lemma {:induction false} HeldRefresh<K(!new)>(holds: map<K, Hold>, k: K, now: nat, m: Option<string>, r: Resource)
    requires k in holds
    ensures Held(holds[k := holds[k].Refreshed(now, m)], r) == Held(holds, r)
  {
    assert Amounts(holds[k := holds[k].Refreshed(now, m)], r) == Amounts(holds, r);
  }

  lemma {:induction false} HeldSubset<K(!new)>(part: map<K, Hold>, whole: map<K, Hold>, r: Resource)
    requires forall k :: k in part ==> k in whole && part[k].Amount(r) == whole[k].Amount(r)
    ensures Held(part, r) <= Held(whole, r)
  {
    MapSumSubset(Amounts(part, r), Amounts(whole, r));
  }

  // ---------- the steps ----------

  datatype State = State(resources: SystemResources, holds: map<string, Hold>)

  /** `prune_expired_reservations`. */
  function Live(holds: map<string, Hold>, now: nat): map<string, Hold> {
    holds - set id | id in holds && holds[id].expiresAt <= now
  }

  /** What `total_reserved_resources` reports: the sum, stuck at the machine limit. */
  ghost function Reserved(holds: map<string, Hold>, r: Resource): nat {
    Capped(Held(holds, r), Limit(r))
  }

  /** One saturating addition of the fold. */
  lemma {:induction false} FoldStep(done: map<string, Hold>, id: string, h: Hold, r: Resource)
    requires id !in done
    ensures Reserved(done[id := h], r) == Capped(Reserved(done, r) + h.Amount(r), Limit(r))
  {
    HeldAdd(done, id, h, r);
  }

  ghost function Reservable(s: State, r: Resource): nat {
    SatSub(s.resources.Available(r), Reserved(s.holds, r))
  }

  ghost predicate Fits(s: State, q: Request) {
    forall r: Resource :: q.Needed(r) <= Reservable(s, r)
  }

  datatype Outcome = Accepted | Insufficient(resource: Resource)

  ghost function Verdict(s: State, q: Request): Outcome {
    if q.Needed(Cpu) > Reservable(s, Cpu) then Insufficient(Cpu)
    else if q.Needed(Memory) > Reservable(s, Memory) then Insufficient(Memory)
    else if q.Needed(Storage) > Reservable(s, Storage) then Insufficient(Storage)
    else Accepted
  }

  lemma {:induction false} VerdictIsFits(s: State, q: Request)
    ensures Verdict(s, q) == Accepted <==> Fits(s, q)
  {
    if Verdict(s, q) == Accepted {
      forall r: Resource
        ensures q.Needed(r) <= Reservable(s, r)
      {
        match r case Cpu => case Memory => case Storage =>
      }
    }
  }

  function Pruned(s: State, now: nat): State {
    s.(holds := Live(s.holds, now))
  }

  /** `reserve_capacity` as one step. */
  ghost function Reserve(s: State, now: nat, id: string, m: Option<string>, q: Request): (State, Outcome) {
    var p := Pruned(s, now);
    if id in p.holds then
      (p.(holds := p.holds[id := p.holds[id].Refreshed(now, m)]), Accepted)
    else if Verdict(p, q) == Accepted then
      (p.(holds := p.holds[id := NewHold(now, m, q)]), Accepted)
    else
      (p, Verdict(p, q))
  }

  /** `has_active_reservation_for_manifest`, after pruning. */
  ghost predicate HoldsManifest(holds: map<string, Hold>, m: string) {
    exists id :: id in holds && holds[id].manifest == Some(m)
  }

  /** An insertion that takes some of a resource fits exactly, and stores the unsaturated product. */
  lemma {:induction false} InsertionFits(s: State, q: Request, r: Resource)
    requires Fits(s, q)
    ensures q.Needed(r) == q.PerReplica(r) * q.replicas
    ensures q.Needed(r) > 0 ==> Held(s.holds, r) + q.Needed(r) <= s.resources.Available(r)
  {
    AvailableBelow(s.resources, r);
    assert q.Needed(r) <= Reservable(s, r);
  }

  /** A resource is short iff something of it is needed and does not fit beside what is held. */
  lemma {:induction false} ShortIff(s: State, q: Request, r: Resource)
    ensures q.Needed(r) > Reservable(s, r) <==>
              q.Needed(r) > 0 && Held(s.holds, r) + q.Needed(r) > s.resources.Available(r)
  {
    AvailableBelow(s.resources, r);
  }

  /** The resource that a refusal names is short, and those before it, in the order CPU, memory, storage, are not. */
  lemma {:induction false} RefusalNamesFirstShort(s: State, q: Request)
    ensures var short := (r: Resource) => q.Needed(r) > 0 && Held(s.holds, r) + q.Needed(r) > s.resources.Available(r);
            && (Verdict(s, q) == Insufficient(Cpu) <==> short(Cpu))
            && (Verdict(s, q) == Insufficient(Memory) <==> !short(Cpu) && short(Memory))
            && (Verdict(s, q) == Insufficient(Storage) <==> !short(Cpu) && !short(Memory) && short(Storage))
            && (Verdict(s, q) == Accepted <==> !short(Cpu) && !short(Memory) && !short(Storage))
  {
    ShortIff(s, q, Cpu);
    ShortIff(s, q, Memory);
    ShortIff(s, q, Storage);
  }

  /**
   What a reserve call does, in the fields of the holds: others stay iff they have not expired;
   a live hold of the id is kept three seconds more and renamed if a manifest is given; a new
   one takes exactly request times replicas; a refusal leaves none.
   */
  lemma {:induction false} ReserveEffect(s: State, now: nat, id: string, m: Option<string>, q: Request)
    ensures var (t, outcome) := Reserve(s, now, id, m, q);
            && t.resources == s.resources
            && (forall other :: other != id ==>
                  && (other in t.holds <==> other in s.holds && s.holds[other].expiresAt > now)
                  && (other in t.holds ==> t.holds[other] == s.holds[other]))
            && (id in t.holds <==> outcome == Accepted)
            && (id in s.holds && s.holds[id].expiresAt > now ==>
                  && outcome == Accepted
                  && t.holds[id] == Hold(s.holds[id].cpu, s.holds[id].memory, s.holds[id].storage,
                                         if m.Some? then m else s.holds[id].manifest, now + 3_000_000_000))
            && (!(id in s.holds && s.holds[id].expiresAt > now) && outcome == Accepted ==>
                  t.holds[id] == Hold(q.cpu * q.replicas, q.memory * q.replicas, q.storage * q.replicas, m, now + 3_000_000_000))
  {
    var (t, outcome) := Reserve(s, now, id, m, q);
    if !(id in s.holds && s.holds[id].expiresAt > now) && outcome == Accepted {
      var p := Pruned(s, now);
      VerdictIsFits(p, q);
      InsertionFits(p, q, Cpu);
      InsertionFits(p, q, Memory);
      InsertionFits(p, q, Storage);
    }
  }

  // ---------- the verifier object ----------

  datatype Rejection = Short(resource: Resource) | TooManyWorkloads

  datatype CapacityCheck = CapacityCheck(hasCapacity: bool, reason: Option<Rejection>, cpu: nat, memory: nat, storage: nat)

  class ResourceVerifier {
    var resources: SystemResources
    var reservations: map<string, Hold>

    constructor ()
      ensures View() == Initial()
    {
      resources := SystemResources(0, 0, 0, 0, 0, 0, 0);
      reservations := map[];
    }

    ghost function View(): State
      reads this
    {
      State(resources, reservations)
    }

    method PruneExpired(now: nat)
      modifies this
      ensures resources == old(resources)
      ensures forall id :: id in reservations <==> id in old(reservations) && old(reservations)[id].expiresAt > now
      ensures forall id :: id in reservations ==> reservations[id] == old(reservations)[id]
      ensures View() == Pruned(old(View()), now)
    {
      reservations := reservations - set id | id in reservations && reservations[id].expiresAt <= now;
    }

    /** The saturating fold, in whatever order the map yields its values. */
    method TotalReserved() returns (cpu: nat, memory: nat, storage: nat)
      ensures cpu == Reserved(reservations, Cpu)
      ensures memory == Reserved(reservations, Memory)
      ensures storage == Reserved(reservations, Storage)
    {
      cpu, memory, storage := 0, 0, 0;
      var todo := reservations.Keys;
      ghost var done: map<string, Hold> := map[];
      assert forall r: Resource :: Amounts(done, r) == map[];
      while todo != {}
        invariant todo <= reservations.Keys
        invariant done.Keys == reservations.Keys - todo
        invariant forall id :: id in done ==> done[id] == reservations[id]
        invariant cpu == Reserved(done, Cpu)
        invariant memory == Reserved(done, Memory)
        invariant storage == Reserved(done, Storage)
        decreases todo
      {
        var id :| id in todo;
        var h := reservations[id];
        FoldStep(done, id, h, Cpu);
        FoldStep(done, id, h, Memory);
        FoldStep(done, id, h, Storage);
        cpu := Capped(cpu + h.cpu, Limit(Cpu));
        memory := Capped(memory + h.memory, Limit(Memory));
        storage := Capped(storage + h.storage, Limit(Storage));
        todo := todo - {id};
        done := done[id := h];
      }
      assert done == reservations;
    }

    method ReserveCapacity(now: nat, id: string, m: Option<string>, q: Request) returns (outcome: Outcome)
      modifies this
      ensures (View(), outcome) == Reserve(old(View()), now, id, m, q)
    {
      PruneExpired(now);
      if id in reservations {
        reservations := reservations[id := reservations[id].Refreshed(now, m)];
        return Accepted;
      }
      var cpu, memory, storage := TotalReserved();
      if q.Needed(Cpu) > SatSub(resources.Available(Cpu), cpu) {
        return Insufficient(Cpu);
      }
      if q.Needed(Memory) > SatSub(resources.Available(Memory), memory) {
        return Insufficient(Memory);
      }
      if q.Needed(Storage) > SatSub(resources.Available(Storage), storage) {
        return Insufficient(Storage);
      }
      reservations := reservations[id := NewHold(now, m, q)];
      outcome := Accepted;
    }

    method HasActiveReservation(now: nat, m: string) returns (active: bool)
      modifies this
      ensures View() == Pruned(old(View()), now)
      ensures active <==> HoldsManifest(reservations, m)
    {
      PruneExpired(now);
      active := exists id :: id in reservations && reservations[id].manifest == Some(m);
    }

    method VerifyCapacity(now: nat, q: Request) returns (result: CapacityCheck)
      modifies this
      ensures View() == Pruned(old(View()), now)
      ensures result.hasCapacity <==> Fits(View(), q) && resources.CanAcceptMoreWorkloads()
      ensures result.hasCapacity <==> result.reason.None?
      ensures forall r :: result.reason == Some(Short(r)) <==> Verdict(View(), q) == Insufficient(r)
      ensures result.cpu == Reservable(View(), Cpu)
      ensures result.memory == Reservable(View(), Memory)
      ensures result.storage == Reservable(View(), Storage)
    {
      PruneExpired(now);
      var cpu, memory, storage := TotalReserved();
      var availableCpu := SatSub(resources.Available(Cpu), cpu);
      var availableMemory := SatSub(resources.Available(Memory), memory);
      var availableStorage := SatSub(resources.Available(Storage), storage);
      VerdictIsFits(View(), q);
      var reason: Option<Rejection> := None;
      if q.Needed(Cpu) > availableCpu {
        reason := Some(Short(Cpu));
      } else if q.Needed(Memory) > availableMemory {
        reason := Some(Short(Memory));
      } else if q.Needed(Storage) > availableStorage {
        reason := Some(Short(Storage));
      } else if !resources.CanAcceptMoreWorkloads() {
        reason := Some(TooManyWorkloads);
      }
      result := CapacityCheck(reason.None?, reason, availableCpu, availableMemory, availableStorage);
    }

    method UpdateSystemResources(measured: SystemResources)
      modifies this
      ensures View() == old(View()).(resources := measured)
    {
      resources := measured;
    }
  }

  // ---------- runs ----------

  datatype Op =
    | Ask(id: string, manifest: Option<string>, request: Request)
    | Prune
    | Measure(resources: SystemResources)
    | Elsewhere  // something the verifier has no part in

  datatype Event = Event(at: nat, op: Op)

  function Initial(): State {
    State(SystemResources(0, 0, 0, 0, 0, 0, 0), map[])
  }

  /** Pruning stands for every call that only prunes: the manifest test and the capacity check. */
  ghost function Step(s: State, e: Event): State {
    match e.op
    case Ask(id, m, q) => Reserve(s, e.at, id, m, q).0
    case Prune => Pruned(s, e.at)
    case Measure(res) => s.(resources := res)
    case Elsewhere => s
  }

  ghost function RunFrom(s: State, events: seq<Event>): State {
    if events == [] then s
    else Step(RunFrom(s, events[..|events| - 1]), events[|events| - 1])
  }

  ghost function Run(events: seq<Event>): State {
    RunFrom(Initial(), events)
  }

  ghost predicate Monotone(events: seq<Event>) {
    forall i, j :: 0 <= i < j < |events| ==> events[i].at <= events[j].at
  }

  /** Event j put a new hold in the map, rather than refreshing one or being refused. */
  ghost predicate Inserts(s: State, e: Event) {
    && e.op.Ask?
    && e.op.id !in Live(s.holds, e.at)
    && Reserve(s, e.at, e.op.id, e.op.manifest, e.op.request).1 == Accepted
  }

  lemma {:induction false} PruneShrinks(holds: map<string, Hold>, now: nat, r: Resource)
    ensures Held(Live(holds, now), r) <= Held(holds, r)
  {
    HeldSubset(Live(holds, now), holds, r);
  }

  lemma {:induction false} StepHeld(s: State, e: Event, r: Resource)
    ensures !Inserts(s, e) ==> Held(Step(s, e).holds, r) <= Held(s.holds, r)
    ensures Inserts(s, e) ==> Fits(Pruned(s, e.at), e.op.request)
    ensures Inserts(s, e) ==> Held(Step(s, e).holds, r) == Held(Live(s.holds, e.at), r) + e.op.request.Needed(r)
  {
    PruneShrinks(s.holds, e.at, r);
    if e.op.Ask? {
      var live := Live(s.holds, e.at);
      if e.op.id in live {
        HeldRefresh(live, e.op.id, e.at, e.op.manifest, r);
      } else if Inserts(s, e) {
        VerdictIsFits(Pruned(s, e.at), e.op.request);
        HeldAdd(live, e.op.id, NewHold(e.at, e.op.manifest, e.op.request), r);
      }
    }
  }

  /** No atomic call overcommits: an insertion leaves the resources it takes within what is available then. */
  lemma {:induction false} NoOvercommit(events: seq<Event>, j: nat, r: Resource)
    requires j < |events| && Inserts(Run(events[..j]), events[j])
    requires events[j].op.request.Needed(r) > 0
    ensures Held(Run(events[..j + 1]).holds, r) <= Run(events[..j + 1]).resources.Available(r)
  {
    var s, e := Run(events[..j]), events[j];
    assert events[..j + 1][..j] == events[..j];
    StepHeld(s, e, r);
    InsertionFits(Pruned(s, e.at), e.op.request, r);
  }

  /** On every run the saturating fold reports the true sum. */
  lemma {:induction false} FoldIsExact(events: seq<Event>, r: Resource)
    ensures Held(Run(events).holds, r) <= Limit(r)
    ensures Reserved(Run(events).holds, r) == Held(Run(events).holds, r)
  {
    if events == [] {
      assert Amounts(Run(events).holds, r) == map[];
    } else {
      var n := |events| - 1;
      var s, e := Run(events[..n]), events[n];
      FoldIsExact(events[..n], r);
      StepHeld(s, e, r);
      if Inserts(s, e) {
        PruneShrinks(s.holds, e.at, r);
        InsertionFits(Pruned(s, e.at), e.op.request, r);
        AvailableBelow(s.resources, r);
      }
    }
  }

  /** The hold is for exactly `replicas` times what the request asks per replica. */
  ghost predicate ExactFor(h: Hold, q: Request) {
    forall r: Resource :: h.Amount(r) == q.PerReplica(r) * q.replicas
  }

  ghost predicate InsertsFor(events: seq<Event>, j: nat, id: string)
    requires j < |events|
  {
    Inserts(Run(events[..j]), events[j]) && events[j].op.id == id
  }

  /** Of the first n events, event j is the last to insert a hold for the id. */
  ghost predicate LastInsertion(events: seq<Event>, n: nat, j: int, id: string)
    requires n <= |events|
  {
    0 <= j < n && InsertsFor(events, j, id) && forall x :: j < x < n ==> !InsertsFor(events, x, id)
  }

  /** What one event leaves of a hold that it does not insert: the amounts as they were. */
  lemma {:induction false} HoldStep(s: State, e: Event, id: string)
    requires id in Step(s, e).holds && !(Inserts(s, e) && e.op.id == id)
    ensures id in s.holds && forall r: Resource :: Step(s, e).holds[id].Amount(r) == s.holds[id].Amount(r)
  {
  }

  lemma {:induction false} InsertedExactly(s: State, e: Event)
    requires Inserts(s, e)
    ensures e.op.id in Step(s, e).holds && ExactFor(Step(s, e).holds[e.op.id], e.op.request)
  {
    StepHeld(s, e, Cpu);
    forall r: Resource
      ensures Step(s, e).holds[e.op.id].Amount(r) == e.op.request.PerReplica(r) * e.op.request.replicas
    {
      InsertionFits(Pruned(s, e.at), e.op.request, r);
    }
  }

  /** On every run each hold is exactly what the call that inserted it asked for; saturation never touched it. */
  lemma {:induction false} HoldsAreExact(events: seq<Event>, n: nat, id: string) returns (j: nat)
    requires n <= |events| && id in Run(events[..n]).holds
    ensures LastInsertion(events, n, j, id) && ExactFor(Run(events[..n]).holds[id], events[j].op.request)
  {
    if n == 0 {
      assert false;
    }
    var s, e := Run(events[..n - 1]), events[n - 1];
    assert events[..n][..n - 1] == events[..n - 1];
    if InsertsFor(events, n - 1, id) {
      j := n - 1;
      InsertedExactly(s, e);
    } else {
      HoldStep(s, e, id);
      j := HoldsAreExact(events, n - 1, id);
    }
  }

  // ---------- pruning shows nowhere ----------

  lemma {:induction false} PrunedBefore(holds: map<string, Hold>, now: nat, later: nat)
    requires now <= later
    ensures Live(Live(holds, now), later) == Live(holds, later)
  {
  }

  /** The same resources, and the same holds to any call from time t on. */
  ghost predicate AlikeFrom(a: State, b: State, t: nat) {
    a.resources == b.resources && forall u :: t <= u ==> Live(a.holds, u) == Live(b.holds, u)
  }

  lemma {:induction false} PrunedIsAlike(s: State, now: nat)
    ensures AlikeFrom(Pruned(s, now), s, now)
  {
    forall u | now <= u
      ensures Live(Pruned(s, now).holds, u) == Live(s.holds, u)
    {
      PrunedBefore(s.holds, now, u);
    }
  }

  ghost function Answer(s: State, e: Event): Outcome
    requires e.op.Ask?
  {
    Reserve(s, e.at, e.op.id, e.op.manifest, e.op.request).1
  }

  lemma {:induction false} AlikeStep(a: State, b: State, t: nat, e: Event)
    requires AlikeFrom(a, b, t) && t <= e.at
    ensures AlikeFrom(Step(a, e), Step(b, e), e.at)
    ensures e.op.Prune? ==> AlikeFrom(Step(a, e), b, e.at)
    ensures e.op.Ask? ==> Answer(a, e) == Answer(b, e)
  {
    assert Pruned(a, e.at) == Pruned(b, e.at);
    PrunedIsAlike(b, e.at);
  }

  /** The run without its prunes. */
  function Unpruned(events: seq<Event>): seq<Event> {
    if events == [] then []
    else
      var n := |events| - 1;
      Unpruned(events[..n]) + (if events[n].op.Prune? then [] else [events[n]])
  }

  function LastTime(events: seq<Event>): nat {
    if events == [] then 0 else events[|events| - 1].at
  }

  /** Leave all prunes out of a run, and any later call finds the same holds. */
  lemma {:induction false} AlikeUnpruned(events: seq<Event>)
    requires Monotone(events)
    ensures AlikeFrom(Run(events), Run(Unpruned(events)), LastTime(events))
  {
    if events != [] {
      var n := |events| - 1;
      var front, e := events[..n], events[n];
      AlikeUnpruned(front);
      AlikeStep(Run(front), Run(Unpruned(front)), LastTime(front), e);
      if e.op.Prune? {
        assert Unpruned(events) == Unpruned(front);
      } else {
        RunOneMore(Unpruned(front), e);
      }
    }
  }

  /** Pruning is housekeeping: with or without the prunes of a run, every later call gets the same answer. */
  lemma {:induction false} PrunesAreInvisible(events: seq<Event>, e: Event, m: string)
    requires Monotone(events) && LastTime(events) <= e.at
    ensures e.op.Ask? ==> Answer(Run(events), e) == Answer(Run(Unpruned(events)), e)
    ensures HoldsManifest(Live(Run(events).holds, e.at), m) <==> HoldsManifest(Live(Run(Unpruned(events)).holds, e.at), m)
  {
    AlikeUnpruned(events);
    AlikeStep(Run(events), Run(Unpruned(events)), LastTime(events), e);
  }

  lemma {:induction false} RunOneMore(events: seq<Event>, e: Event)
    ensures Run(events + [e]) == Step(Run(events), e)
  {
    assert (events + [e])[..|events|] == events;
  }

  // ---------- verify_capacity against reserve_capacity ----------

  /** For a request id not in use, the capacity check answers yes iff a reservation would be accepted. */
  lemma {:induction false} VerifyPredictsReserve(s: State, now: nat, id: string, m: Option<string>, q: Request)
    requires id !in Live(s.holds, now)
    ensures Reserve(s, now, id, m, q).1 == Accepted
       <==> Fits(Pruned(s, now), q) && s.resources.CanAcceptMoreWorkloads()
  {
    VerdictIsFits(Pruned(s, now), q);
  }

  /** Every event keeps the resource snapshot and inserts nothing. */
  ghost predicate Quiet(s: State, events: seq<Event>) {
    forall j :: 0 <= j < |events| ==>
      !events[j].op.Measure? && !Inserts(RunFrom(s, events[..j]), events[j])
  }

  lemma {:induction false} QuietShrinks(s: State, events: seq<Event>, r: Resource)
    requires Quiet(s, events)
    ensures Held(RunFrom(s, events).holds, r) <= Held(s.holds, r)
    ensures RunFrom(s, events).resources == s.resources
  {
    if events != [] {
      var n := |events| - 1;
      forall j | 0 <= j < n
        ensures !events[..n][j].op.Measure? && !Inserts(RunFrom(s, events[..n][..j]), events[..n][j])
      {
        assert events[..n][..j] == events[..j];
      }
      QuietShrinks(s, events[..n], r);
      StepHeld(RunFrom(s, events[..n]), events[n], r);
    }
  }

  lemma {:induction false} LessHeldMoreReservable(a: State, b: State, r: Resource)
    requires a.resources == b.resources && Held(a.holds, r) <= Held(b.holds, r)
    ensures Reservable(a, r) >= Reservable(b, r)
  {
  }

  /** A yes outlives any run of refreshes, prunes and refusals. */
  lemma {:induction false} YesStaysValid(s: State, now: nat, q: Request, events: seq<Event>, later: nat, id: string, m: Option<string>)
    requires Fits(Pruned(s, now), q)
    requires Quiet(Pruned(s, now), events)
    requires id !in Live(RunFrom(Pruned(s, now), events).holds, later)
    ensures Reserve(RunFrom(Pruned(s, now), events), later, id, m, q).1 == Accepted
  {
    var p := Pruned(s, now);
    var t := RunFrom(p, events);
    forall r: Resource
      ensures q.Needed(r) <= Reservable(Pruned(t, later), r)
    {
      QuietShrinks(p, events, r);
      PruneShrinks(t.holds, later, r);
      LessHeldMoreReservable(Pruned(t, later), p, r);
    }
    VerifyPredictsReserve(t, later, id, m, q);
  }
}
