/**
 Who may deploy, over whole runs (machineplane/machine/src/workload_integration.rs:213-239,
 630-671): reserve calls, prunes and measurements on the verifier; on the node apply requests,
 which pass the reservation gate, and self-applies and task creations, which do not.
 */
module ApplyGate {
  import opened Basics
  import opened Reservations
  import opened ReservationHistory
  import Owners = WorkloadOwners

  datatype Happening =
    | OnVerifier(event: Event)
    | ApplyArrives(at: nat, hasManifest: bool, request: Owners.Apply)
    | SelfApplies(at: nat, request: Owners.Apply)          // a direct apply to this very machine
    | OwnerNamed(at: nat, manifest: string, key: Owners.Key)  // a task created here
    | RemovalArrives(at: nat, manifest: string, faults: Owners.Faults)
    | WorkloadStops(at: nat, engine: string, workload: string)

  predicate ReachesGate(h: Happening) {
    h.ApplyArrives? && h.hasManifest && h.request.manifest != ""
  }

  function TimeOf(h: Happening): nat {
    if h.OnVerifier? then h.event.at else h.at
  }

  /** What the verifier sees: the gate prunes before it looks. */
  function EventOf(h: Happening): Event {
    if h.OnVerifier? then h.event
    else Event(h.at, if ReachesGate(h) then Prune else Elsewhere)
  }

  function EventsOf(run: seq<Happening>): (events: seq<Event>)
    ensures |events| == |run|
    ensures forall i :: 0 <= i < |run| ==> events[i] == EventOf(run[i])
  {
    seq(|run|, i requires 0 <= i < |run| => EventOf(run[i]))
  }

  /** What the manifest test would say. */
  ghost predicate TestSaysYes(verifier: State, at: nat, m: string) {
    HoldsManifest(Live(verifier.holds, at), m)
  }

  /** The request is processed: let through by the gate, or not asked to pass it. */
  ghost predicate Admitted(verifier: State, h: Happening) {
    h.SelfApplies? || (ReachesGate(h) && TestSaysYes(verifier, h.at, h.request.manifest))
  }

  /** The gate in the fields of the request and the holds: a manifest, an id for it, and a live hold that names it. */
  lemma {:induction false} AdmittedInFields(verifier: State, h: Happening)
    requires h.ApplyArrives?
    ensures Admitted(verifier, h) <==>
              && h.hasManifest && h.request.manifest != ""
              && exists id :: id in verifier.holds && verifier.holds[id].expiresAt > h.at
                              && verifier.holds[id].manifest == Some(h.request.manifest)
  {
    var live := Live(verifier.holds, h.at);
    if id :| id in verifier.holds && verifier.holds[id].expiresAt > h.at && verifier.holds[id].manifest == Some(h.request.manifest) {
      assert id in live && live[id].manifest == Some(h.request.manifest);
    }
  }

  ghost function NodeStep(verifier: State, node: Owners.State, h: Happening): Owners.State {
    match h
    case OnVerifier(_) => node
    case ApplyArrives(_, _, a) => if Admitted(verifier, h) then Owners.Step(node, Owners.Applied(a)) else node
    case SelfApplies(_, a) => Owners.Step(node, Owners.Applied(a))
    case OwnerNamed(_, m, key) => Owners.Step(node, Owners.OwnerNamed(m, key))
    case RemovalArrives(_, m, f) => Owners.Step(node, Owners.Removed(m, f))
    case WorkloadStops(_, e, id) => Owners.Step(node, Owners.Stopped(e, id))
  }

  ghost function VerifierAt(run: seq<Happening>, n: nat): State
    requires n <= |run|
  {
    Run(EventsOf(run)[..n])
  }

  ghost function NodeAt(names: set<string>, run: seq<Happening>, n: nat): Owners.State
    requires n <= |run|
  {
    if n == 0 then Owners.Fresh(names) else NodeStep(VerifierAt(run, n - 1), NodeAt(names, run, n - 1), run[n - 1])
  }

  // ---------- what backs a request ----------

  /** The history of reserve calls puts m under reservation when x happens. */
  ghost predicate ReservedAt(run: seq<Happening>, x: nat, m: string) {
    x < |run| && exists id :: ReservedFor(EventsOf(run)[..x], id, TimeOf(run[x]), m)
  }

  /**
   The calls behind that: some request id had an accepted reserve call that named m, and a
   later or equal one, for the same id, less than the hold before x.
   */
  ghost predicate Backed(run: seq<Happening>, x: nat, m: string, id: string, named: nat, recent: nat) {
    && named <= recent < x < |run|
    && AcceptedAsk(VerifierAt(run, named), EventOf(run[named]), id)
    && EventOf(run[named]).op.manifest == Some(m)
    && AcceptedAsk(VerifierAt(run, recent), EventOf(run[recent]), id)
    && TimeOf(run[x]) < EventOf(run[recent]).at + 3_000_000_000
  }

  /** At any point of a run the test says yes iff the history does, and then there are calls that back it. */
  lemma {:induction false} TestIsHistory(run: seq<Happening>, x: nat, m: string) returns (id: string, named: nat, recent: nat)
    requires Monotone(EventsOf(run)) && x < |run|
    ensures TestSaysYes(VerifierAt(run, x), TimeOf(run[x]), m) <==> ReservedAt(run, x, m)
    ensures ReservedAt(run, x, m) ==> Backed(run, x, m, id, named, recent)
  {
    var events := EventsOf(run);
    ManifestTest(events[..x], TimeOf(run[x]), m);
    id, named, recent := "", 0, 0;
    if TestSaysYes(VerifierAt(run, x), TimeOf(run[x]), m) {
      id, named, recent := GateFollowsReserve(events[..x], TimeOf(run[x]), m);
      assert events[..x][..named] == events[..named] && events[..x][..recent] == events[..recent];
    }
  }

  // ---------- deployments ----------

  /** The request at x was processed and hosted the workload. */
  ghost predicate DeployedAt(names: set<string>, run: seq<Happening>, x: nat, name: string, id: string, m: string) {
    && x < |run| && (run[x].ApplyArrives? || run[x].SelfApplies?)
    && Admitted(VerifierAt(run, x), run[x]) && run[x].request.manifest == m
    && Owners.Deploys(NodeAt(names, run, x), run[x].request)
    && run[x].request.placement == Some(Owners.Placement(name, id))
  }

  /** Every hosted workload was deployed by a request that was processed. */
  lemma {:induction false} HostedWasDeployed(names: set<string>, run: seq<Happening>, n: nat, name: string, id: string, m: string)
    returns (x: nat)
    requires n <= |run| && Owners.Hosts(NodeAt(names, run, n), name, id, m)
    ensures x < n && DeployedAt(names, run, x, name, id, m)
  {
    if n == 0 {
      assert false;
    }
    if DeployedAt(names, run, n - 1, name, id, m) {
      x := n - 1;
    } else {
      HostedBefore(VerifierAt(run, n - 1), NodeAt(names, run, n - 1), run[n - 1], name, id, m);
      x := HostedWasDeployed(names, run, n - 1, name, id, m);
    }
  }

  lemma {:induction false} HostedBefore(verifier: State, node: Owners.State, h: Happening, name: string, id: string, m: string)
    requires Owners.Hosts(NodeStep(verifier, node, h), name, id, m)
    requires !((h.ApplyArrives? || h.SelfApplies?) && Admitted(verifier, h) && h.request.manifest == m
               && Owners.Deploys(node, h.request) && h.request.placement == Some(Owners.Placement(name, id)))
    ensures Owners.Hosts(node, name, id, m)
  {
    match h
    case OnVerifier(_) =>
    case ApplyArrives(_, _, a) => Owners.PlaceStep(node, Owners.Applied(a), name, id, m);
    case SelfApplies(_, a) => Owners.PlaceStep(node, Owners.Applied(a), name, id, m);
    case OwnerNamed(_, o, key) => Owners.PlaceStep(node, Owners.OwnerNamed(o, key), name, id, m);
    case RemovalArrives(_, o, f) => Owners.PlaceStep(node, Owners.Removed(o, f), name, id, m);
    case WorkloadStops(_, e, w) => Owners.PlaceStep(node, Owners.Stopped(e, w), name, id, m);
  }

  /** On every run each hosted workload was deployed through the gate, backed by reserve calls, or by a self-apply. */
  lemma {:induction false} DeploymentFollowsReserve(names: set<string>, run: seq<Happening>, n: nat, name: string, id: string, m: string)
    returns (x: nat, request: string, named: nat, recent: nat)
    requires Monotone(EventsOf(run)) && n <= |run| && Owners.Hosts(NodeAt(names, run, n), name, id, m)
    ensures x < n && DeployedAt(names, run, x, name, id, m)
    ensures run[x].SelfApplies? || Backed(run, x, m, request, named, recent)
  {
    x := HostedWasDeployed(names, run, n, name, id, m);
    request, named, recent := TestIsHistory(run, x, m);
  }

  /** A deployment has a reservation behind it iff it came through the gate or the test would have said yes to it. */
  lemma {:induction false} ReservedIff(names: set<string>, run: seq<Happening>, x: nat, name: string, id: string, m: string)
    requires Monotone(EventsOf(run)) && DeployedAt(names, run, x, name, id, m)
    ensures ReservedAt(run, x, m) <==> run[x].ApplyArrives? || TestSaysYes(VerifierAt(run, x), run[x].at, m)
  {
    var request, named, recent := TestIsHistory(run, x, m);
  }

  // ---------- owners ----------

  /** This records the owner of m: a request that is processed, or a task creation. */
  ghost predicate RecordsOwner(verifier: State, h: Happening, m: string, key: Owners.Key) {
    && key != []
    && match h
       case ApplyArrives(_, _, a) => Admitted(verifier, h) && a.decrypts && a.manifest == m && a.key == key
       case SelfApplies(_, a) => a.decrypts && a.manifest == m && a.key == key
       case OwnerNamed(_, o, k) => o == m && k == key
       case _ => false
  }

  ghost predicate RecordedAt(run: seq<Happening>, x: nat, m: string, key: Owners.Key) {
    x < |run| && RecordsOwner(VerifierAt(run, x), run[x], m, key)
  }

  /** On every run each owner entry was recorded through the gate, backed by reserve calls, or by a self-apply or a task creation. */
  lemma {:induction false} OwnerFollowsReserve(names: set<string>, run: seq<Happening>, n: nat, m: string)
    returns (x: nat, request: string, named: nat, recent: nat)
    requires Monotone(EventsOf(run)) && n <= |run| && m in NodeAt(names, run, n).owners
    ensures x < n && RecordedAt(run, x, m, NodeAt(names, run, n).owners[m])
    ensures run[x].SelfApplies? || run[x].OwnerNamed? || Backed(run, x, m, request, named, recent)
  {
    x := OwnerWasRecorded(names, run, n, m);
    request, named, recent := TestIsHistory(run, x, m);
  }

  lemma {:induction false} OwnerBefore(verifier: State, node: Owners.State, h: Happening, m: string)
    requires m in NodeStep(verifier, node, h).owners
    requires !RecordsOwner(verifier, h, m, NodeStep(verifier, node, h).owners[m])
    ensures m in node.owners && node.owners[m] == NodeStep(verifier, node, h).owners[m]
  {
  }

  lemma {:induction false} OwnerWasRecorded(names: set<string>, run: seq<Happening>, n: nat, m: string) returns (x: nat)
    requires n <= |run| && m in NodeAt(names, run, n).owners
    ensures x < n && RecordedAt(run, x, m, NodeAt(names, run, n).owners[m])
  {
    if n == 0 {
      assert false;
    }
    if RecordedAt(run, n - 1, m, NodeAt(names, run, n).owners[m]) {
      x := n - 1;
    } else {
      OwnerBefore(VerifierAt(run, n - 1), NodeAt(names, run, n - 1), run[n - 1], m);
      x := OwnerWasRecorded(names, run, n - 1, m);
    }
  }

  // ---------- with and without the ungated ways ----------

  /** Without self-applies and task creations, every hosted workload and every owner entry is backed. */
  lemma {:induction false} GateBacksAll(names: set<string>, run: seq<Happening>, n: nat, m: string)
    returns (x: nat, request: string, named: nat, recent: nat)
    requires Monotone(EventsOf(run)) && n <= |run|
    requires forall i :: 0 <= i < n ==> !run[i].SelfApplies? && !run[i].OwnerNamed?
    requires m in NodeAt(names, run, n).owners || !Owners.HostsNone(NodeAt(names, run, n), m)
    ensures x < n && run[x].ApplyArrives? && run[x].request.manifest == m && Backed(run, x, m, request, named, recent)
  {
    if m in NodeAt(names, run, n).owners {
      x, request, named, recent := OwnerFollowsReserve(names, run, n, m);
    } else {
      var name, id :| Owners.Hosts(NodeAt(names, run, n), name, id, m);
      x, request, named, recent := DeploymentFollowsReserve(names, run, n, name, id, m);
    }
  }

  /** With them it fails: a self-apply hosts with no reservation, and a task creation names an owner. */
  lemma {:induction false} UngatedDeploys(q: Owners.Apply, engine: string, id: string, at: nat)
    requires q.decrypts && q.placement == Some(Owners.Placement(engine, id))
    ensures var run := [SelfApplies(at, q)];
            Owners.Hosts(NodeAt({engine}, run, 1), engine, id, q.manifest) && !ReservedAt(run, 0, q.manifest)
    ensures q.key != [] ==>
              var run := [OwnerNamed(at, q.manifest, q.key)];
              q.manifest in NodeAt({engine}, run, 1).owners && !ReservedAt(run, 0, q.manifest)
  {
    assert NodeAt({engine}, [SelfApplies(at, q)], 0) == Owners.Fresh({engine});
    assert NodeAt({engine}, [OwnerNamed(at, q.manifest, q.key)], 0) == Owners.Fresh({engine});
    var r1, n1, l1 := TestIsHistory([SelfApplies(at, q)], 0, q.manifest);
    var r2, n2, l2 := TestIsHistory([OwnerNamed(at, q.manifest, q.key)], 0, q.manifest);
  }
}
