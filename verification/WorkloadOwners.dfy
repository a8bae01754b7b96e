/**
 Workloads on several runtime engines and the owner key recorded per manifest
 (machineplane/machine/src/workload_integration.rs). Each handler is one atomic step here;
 OwnerRace takes them apart. Which library calls fail is an input.
 */
module WorkloadOwners {
  import opened Basics
  import Reservations

  type Key = seq<nat>

  /** `signed` records that the deploying request carried an owner key; the engines do not store it. */
  datatype Workload = Workload(manifest: string, signed: bool)

  type Engine = map<string, Workload>

  datatype State = State(engines: map<string, Engine>, owners: map<string, Key>, providing: set<string>)

  /** Where a deployment ends up, if everything up to the engine's answer succeeds. */
  datatype Placement = Placement(engine: string, workload: string)

  datatype Apply = Apply(manifest: string, key: Key, decrypts: bool, placement: Option<Placement>)

  /** Engines whose listing fails, and workloads whose removal fails. */
  datatype Faults = Faults(listing: set<string>, removing: set<(string, string)>)

  // ---------- steps ----------

  /** An empty key is not recorded. */
  function Named(owners: map<string, Key>, m: string, key: Key): map<string, Key> {
    if key == [] then owners else owners[m := key]
  }

  function Recorded(owners: map<string, Key>, a: Apply): map<string, Key> {
    Named(owners, a.manifest, a.key)
  }

  predicate Deploys(s: State, a: Apply) {
    a.decrypts && a.placement.Some? && a.placement.value.engine in s.engines
  }

  function Hosted(engines: map<string, Engine>, p: Placement, w: Workload): map<string, Engine>
    requires p.engine in engines
  {
    engines[p.engine := engines[p.engine][p.workload := w]]
  }

  /** `process_manifest_deployment`: the owner is recorded before the steps that may still fail. */
  function AfterApply(s: State, a: Apply): State {
    if !a.decrypts then s
    else if !Deploys(s, a) then s.(owners := Recorded(s.owners, a))
    else State(Hosted(s.engines, a.placement.value, Workload(a.manifest, a.key != [])),
               Recorded(s.owners, a),
               s.providing + {a.manifest})
  }

  /** The workload stays: it is another manifest's, or its engine could not list or remove it. */
  predicate Stays(engine: string, id: string, w: Workload, m: string, f: Faults) {
    w.manifest != m || engine in f.listing || (engine, id) in f.removing
  }

  function Swept(name: string, e: Engine, m: string, f: Faults): Engine {
    e - set id | id in e && !Stays(name, id, e[id], m, f)
  }

  /** No listing fails, and no removal of one of the manifest's workloads. */
  ghost predicate ErrorFree(s: State, m: string, f: Faults) {
    forall name :: name in s.engines ==> CleanEngine(name, s.engines[name], m, f)
  }

  ghost predicate CleanEngine(name: string, e: Engine, m: string, f: Faults) {
    && name !in f.listing
    && forall id :: id in e && e[id].manifest == m ==> (name, id) !in f.removing
  }

  /** `remove_workloads_by_manifest_id`. */
  ghost function AfterRemove(s: State, m: string, f: Faults): State {
    State(map name | name in s.engines :: Swept(name, s.engines[name], m, f),
          if ErrorFree(s, m, f) then s.owners - {m} else s.owners,
          s.providing - {m})
  }

  /** `remove_workload_by_id`, when the engine complies: neither owner nor announcement is looked at. */
  function Without(engines: map<string, Engine>, name: string, id: string): map<string, Engine> {
    if name in engines then engines[name := engines[name] - {id}] else engines
  }

  /** What a request does, in its own fields, to one place, one manifest's owner and one announcement. */
  lemma {:induction false} ApplyEffect(s: State, a: Apply, name: string, id: string, m: string)
    ensures var t := AfterApply(s, a);
            var hosts := a.decrypts && a.placement.Some? && a.placement.value.engine in s.engines;
            && t.engines.Keys == s.engines.Keys
            && (name in s.engines && hosts && a.placement.value == Placement(name, id) ==>
                  id in t.engines[name] && t.engines[name][id] == Workload(a.manifest, a.key != []))
            && (name in s.engines && !(hosts && a.placement.value == Placement(name, id)) ==>
                  && (id in t.engines[name] <==> id in s.engines[name])
                  && (id in s.engines[name] ==> t.engines[name][id] == s.engines[name][id]))
            && (if a.decrypts && a.key != [] && a.manifest == m then m in t.owners && t.owners[m] == a.key
                else (m in t.owners <==> m in s.owners) && (m in s.owners ==> t.owners[m] == s.owners[m]))
            && (m in t.providing <==> m in s.providing || (hosts && a.manifest == m))
  {
  }

  /** What a removal does: the workloads of m go unless a fault keeps them, the announcement goes, the owner iff no fault was met. */
  lemma {:induction false} RemovalInFields(s: State, m: string, f: Faults, name: string, id: string, other: string)
    ensures var t := AfterRemove(s, m, f);
            && t.engines.Keys == s.engines.Keys
            && (name in s.engines ==>
                  && (id in t.engines[name] <==>
                        id in s.engines[name]
                        && (s.engines[name][id].manifest != m || name in f.listing || (name, id) in f.removing))
                  && (id in t.engines[name] ==> t.engines[name][id] == s.engines[name][id]))
            && (other in t.providing <==> other in s.providing && other != m)
            && (other in t.owners ==> other in s.owners && t.owners[other] == s.owners[other])
            && (other in s.owners && other !in t.owners ==> other == m)
    ensures m in s.owners ==>
              (m in AfterRemove(s, m, f).owners <==>
                 || (exists e :: e in s.engines && e in f.listing)
                 || (exists e, w :: Hosts(s, e, w, m) && (e, w) in f.removing))
  {
    if !ErrorFree(s, m, f) {
      var e :| e in s.engines && !CleanEngine(e, s.engines[e], m, f);
      if e !in f.listing {
        var w :| w in s.engines[e] && s.engines[e][w].manifest == m && (e, w) in f.removing;
        assert Hosts(s, e, w, m);
      }
    } else {
      forall e | e in s.engines
        ensures e !in f.listing && forall w :: Hosts(s, e, w, m) ==> (e, w) !in f.removing
      {
        assert CleanEngine(e, s.engines[e], m, f);
      }
    }
  }

  /** How many workloads each engine has. */
  ghost function Sizes(engines: map<string, Engine>): map<string, nat> {
    map name | name in engines :: |engines[name]|
  }

  /** How many workloads there are. */
  ghost function Size(engines: map<string, Engine>): nat {
    Reservations.MapSum(Sizes(engines))
  }

  lemma {:induction false} SizeUpdate(engines: map<string, Engine>, name: string, e: Engine)
    requires name in engines
    ensures Size(engines[name := e]) + |engines[name]| == Size(engines) + |e|
  {
    assert Sizes(engines[name := e]) == Sizes(engines)[name := |e|];
    Reservations.MapSumUpdate(Sizes(engines), name, |e|);
  }

  // ---------- the node object ----------

  datatype Response = MissingManifest | MissingManifestId | NoReservation | Deployed(workload: string) | DeploymentFailed

  class Node {
    var engines: map<string, Engine>
    var owners: map<string, Key>
    var providing: set<string>

    constructor (names: set<string>)
      ensures View() == Fresh(names)
    {
      engines := map name | name in names :: map[];
      owners, providing := map[], {};
    }

    ghost function View(): State
      reads this
    {
      State(engines, owners, providing)
    }

    /** `record_manifest_owner` as its callers guard it; task creation calls it with nothing deployed. */
    method RecordOwner(m: string, key: Key)
      modifies this`owners
      ensures owners == Named(old(owners), m, key)
    {
      if key != [] {
        owners := owners[m := key];
      }
    }

    method RemoveById(name: string, id: string, complies: bool) returns (ok: bool)
      modifies this`engines
      ensures ok <==> name in old(engines) && complies
      ensures engines == if ok then Without(old(engines), name, id) else old(engines)
    {
      ok := name in engines && complies;
      if ok {
        engines := engines[name := engines[name] - {id}];
      }
    }

    method ProcessDeployment(a: Apply) returns (r: Option<string>)
      modifies this
      ensures View() == AfterApply(old(View()), a)
      ensures r.Some? <==> Deploys(old(View()), a)
      ensures r.Some? ==> r.value == a.placement.value.workload
    {
      if !a.decrypts {
        return None;
      }
      RecordOwner(a.manifest, a.key);
      if a.placement.None? || a.placement.value.engine !in engines {
        return None;
      }
      var p := a.placement.value;
      engines := engines[p.engine := engines[p.engine][p.workload := Workload(a.manifest, a.key != [])]];
      providing := providing + {a.manifest};
      r := Some(p.workload);
    }

    /** The apply handler after envelope verification: nothing is deployed without an active reservation. */
    method HandleApply(verifier: Reservations.ResourceVerifier, now: nat, hasManifest: bool, a: Apply)
      returns (r: Response)
      modifies this, verifier
      ensures verifier.View() == if hasManifest && a.manifest != ""
                                 then Reservations.Pruned(old(verifier.View()), now) else old(verifier.View())
      ensures r == MissingManifest <==> !hasManifest
      ensures r == MissingManifestId <==> hasManifest && a.manifest == ""
      ensures r == NoReservation <==>
                && hasManifest && a.manifest != ""
                && !Reservations.HoldsManifest(Reservations.Live(old(verifier.reservations), now), a.manifest)
      ensures r.Deployed? || r.DeploymentFailed? ==>
                && hasManifest && a.manifest != ""
                && exists id :: id in old(verifier.reservations) && old(verifier.reservations)[id].expiresAt > now
                                && old(verifier.reservations)[id].manifest == Some(a.manifest)
      ensures r.Deployed? || r.DeploymentFailed? ==> View() == AfterApply(old(View()), a)
      ensures r.Deployed? ==> Deploys(old(View()), a) && r.workload == a.placement.value.workload
      ensures r.DeploymentFailed? ==> !Deploys(old(View()), a)
      ensures !(r.Deployed? || r.DeploymentFailed?) ==> View() == old(View())
    {
      if !hasManifest {
        return MissingManifest;
      }
      if a.manifest == "" {
        return MissingManifestId;
      }
      var ok := verifier.HasActiveReservation(now, a.manifest);
      if !ok {
        return NoReservation;
      }
      var workload := ProcessDeployment(a);
      r := if workload.Some? then Deployed(workload.value) else DeploymentFailed;
    }

    /** Remove one engine's workloads of the manifest, from a snapshot of its list. */
    method SweepEngine(name: string, m: string, f: Faults) returns (removed: seq<string>, errors: nat)
      requires name in engines
      modifies this`engines
      ensures engines == old(engines)[name := Swept(name, old(engines)[name], m, f)]
      ensures errors == 0 <==> CleanEngine(name, old(engines)[name], m, f)
      ensures forall id :: id in removed <==> id in old(engines)[name] && id !in engines[name]
      ensures |removed| + |engines[name]| == |old(engines)[name]|
    {
      removed, errors := [], 0;
      if name in f.listing {
        assert Swept(name, engines[name], m, f) == engines[name];
        return [], 1;
      }
      var workloads := engines[name];
      var todo := workloads.Keys;
      var kept := workloads;
      while todo != {}
        invariant todo <= workloads.Keys
        invariant kept.Keys <= workloads.Keys
        invariant forall id :: id in workloads ==>
                    (id in kept <==> id in todo || Stays(name, id, workloads[id], m, f))
        invariant forall id :: id in kept ==> kept[id] == workloads[id]
        invariant forall id :: id in removed <==> id in workloads && id !in kept
        invariant |removed| + |kept| == |workloads|
        invariant errors == 0 <==> forall id :: id in workloads && id !in todo && workloads[id].manifest == m ==>
                                     (name, id) !in f.removing
        decreases todo
      {
        var id :| id in todo;
        todo := todo - {id};
        if workloads[id].manifest == m {
          if (name, id) in f.removing {
            errors := errors + 1;
          } else {
            kept := kept - {id};
            removed := removed + [id];
          }
        }
      }
      assert kept == Swept(name, workloads, m, f);
      engines := engines[name := kept];
    }

    /** Sweep the next engine. */
    method SweepNext(ghost before: map<string, Engine>, ghost done: set<string>, name: string, m: string, f: Faults,
                     removed: seq<string>, errors: nat) returns (removed': seq<string>, errors': nat)
      requires SweptSoFar(before, engines, done, m, f, removed, errors) && name in before && name !in done
      modifies this`engines
      ensures SweptSoFar(before, engines, done + {name}, m, f, removed', errors')
    {
      SweepIsDue(before, engines, done, m, f, removed, errors, name);
      var ids, failures := SweepEngine(name, m, f);
      SweepGoesOn(before, old(engines), done, m, f, removed, errors, name, ids, failures);
      removed', errors' := removed + ids, errors + failures;
    }

    /** Sweep every engine, in whatever order the registry lists them. */
    method SweepAll(m: string, f: Faults) returns (removed: seq<string>, errors: nat)
      modifies this`engines
      ensures SweptSoFar(old(engines), engines, old(engines).Keys, m, f, removed, errors)
    {
      removed, errors := [], 0;
      var todo := engines.Keys;
      ghost var before, done := engines, {};
      SweepStarts(engines, m, f);
      while todo != {}
        invariant todo !! done && todo + done == before.Keys
        invariant SweptSoFar(before, engines, done, m, f, removed, errors)
        decreases todo
      {
        var name :| name in todo;
        removed, errors := SweepNext(before, done, name, m, f, removed, errors);
        todo, done := todo - {name}, done + {name};
      }
      assert done == before.Keys;
    }

    method RemoveByManifest(m: string, f: Faults) returns (removed: seq<string>, errors: nat)
      modifies this
      ensures View() == AfterRemove(old(View()), m, f)
      ensures errors == 0 <==> ErrorFree(old(View()), m, f)
      ensures forall id :: id in removed <==> GoneFrom(old(engines), engines, old(engines).Keys, id)
      ensures |removed| + Size(engines) == Size(old(engines))
    {
      ghost var before := View();
      removed, errors := SweepAll(m, f);
      SweepEnds(before, engines, m, f, removed, errors);
      providing := providing - {m};
      if errors == 0 {
        owners := owners - {m};
      }
    }
  }

  // ---------- a sweep under way ----------

  /** One of these engines had the workload and has it no more. */
  ghost predicate GoneFrom(before: map<string, Engine>, after: map<string, Engine>, names: set<string>, id: string) {
    exists name :: name in names && name in before && name in after && id in before[name] && id !in after[name]
  }

  /** The engines in `done` have been swept and the others not. */
  ghost predicate EnginesSoFar(before: map<string, Engine>, now: map<string, Engine>, done: set<string>, m: string, f: Faults) {
    && now.Keys == before.Keys
    && forall name :: name in before ==>
         now[name] == if name in done then Swept(name, before[name], m, f) else before[name]
  }

  ghost predicate ErrorsSoFar(before: map<string, Engine>, done: set<string>, m: string, f: Faults, errors: nat) {
    errors == 0 <==> forall name :: name in before && name in done ==> CleanEngine(name, before[name], m, f)
  }

  /** What was removed is listed, once for each workload. */
  ghost predicate ListedSoFar(before: map<string, Engine>, now: map<string, Engine>, done: set<string>, removed: seq<string>) {
    && (forall id :: id in removed <==> GoneFrom(before, now, done, id))
    && |removed| + Size(now) == Size(before)
  }

  ghost predicate SweptSoFar(before: map<string, Engine>, now: map<string, Engine>, done: set<string>, m: string, f: Faults,
                             removed: seq<string>, errors: nat) {
    && EnginesSoFar(before, now, done, m, f)
    && ErrorsSoFar(before, done, m, f, errors)
    && ListedSoFar(before, now, done, removed)
  }

  lemma {:induction false} SweepStarts(before: map<string, Engine>, m: string, f: Faults)
    ensures SweptSoFar(before, before, {}, m, f, [], 0)
  {
  }

  lemma {:induction false} SweepIsDue(before: map<string, Engine>, now: map<string, Engine>, done: set<string>, m: string, f: Faults,
                                      removed: seq<string>, errors: nat, name: string)
    requires SweptSoFar(before, now, done, m, f, removed, errors) && name in before && name !in done
    ensures name in now && now[name] == before[name]
  {
  }

  lemma {:induction false} ListGoesOn(before: map<string, Engine>, now: map<string, Engine>, done: set<string>,
                                      removed: seq<string>, name: string, e: Engine, ids: seq<string>)
    requires ListedSoFar(before, now, done, removed) && name in before && name !in done
    requires name in now && now[name] == before[name]
    requires forall id :: id in ids <==> id in before[name] && id !in e
    requires |ids| + |e| == |before[name]|
    ensures ListedSoFar(before, now[name := e], done + {name}, removed + ids)
  {
    SizeUpdate(now, name, e);
    GoneStep(before, now, e, done, name);
  }

  lemma {:induction false} ErrorsGoOn(before: map<string, Engine>, done: set<string>, m: string, f: Faults, errors: nat,
                                      name: string, failures: nat)
    requires ErrorsSoFar(before, done, m, f, errors) && name in before
    requires failures == 0 <==> CleanEngine(name, before[name], m, f)
    ensures ErrorsSoFar(before, done + {name}, m, f, errors + failures)
  {
  }

  lemma {:induction false} SweepGoesOn(before: map<string, Engine>, now: map<string, Engine>, done: set<string>, m: string, f: Faults,
                                       removed: seq<string>, errors: nat, name: string, ids: seq<string>, failures: nat)
    requires SweptSoFar(before, now, done, m, f, removed, errors) && name in before && name !in done
    requires var e := Swept(name, before[name], m, f);
             && (forall id :: id in ids <==> id in before[name] && id !in e)
             && |ids| + |e| == |before[name]|
             && (failures == 0 <==> CleanEngine(name, before[name], m, f))
    ensures SweptSoFar(before, now[name := Swept(name, before[name], m, f)], done + {name}, m, f, removed + ids, errors + failures)
  {
    SweepIsDue(before, now, done, m, f, removed, errors, name);
    ListGoesOn(before, now, done, removed, name, Swept(name, before[name], m, f), ids);
    ErrorsGoOn(before, done, m, f, errors, name, failures);
  }

  lemma {:induction false} ErrorsAtTheEnd(s: State, m: string, f: Faults, errors: nat)
    requires ErrorsSoFar(s.engines, s.engines.Keys, m, f, errors)
    ensures errors == 0 <==> ErrorFree(s, m, f)
  {
  }

  lemma {:induction false} EnginesAtTheEnd(s: State, now: map<string, Engine>, m: string, f: Faults)
    requires EnginesSoFar(s.engines, now, s.engines.Keys, m, f)
    ensures now == AfterRemove(s, m, f).engines
  {
  }

  lemma {:induction false} SweepEnds(s: State, now: map<string, Engine>, m: string, f: Faults, removed: seq<string>, errors: nat)
    requires SweptSoFar(s.engines, now, s.engines.Keys, m, f, removed, errors)
    ensures AfterRemove(s, m, f) == State(now, if errors == 0 then s.owners - {m} else s.owners, s.providing - {m})
    ensures errors == 0 <==> ErrorFree(s, m, f)
    ensures forall id :: id in removed <==> GoneFrom(s.engines, now, s.engines.Keys, id)
    ensures |removed| + Size(now) == Size(s.engines)
  {
    ErrorsAtTheEnd(s, m, f, errors);
    EnginesAtTheEnd(s, now, m, f);
  }

  lemma {:induction false} GoneStep(before: map<string, Engine>, mid: map<string, Engine>, e: Engine, names: set<string>, name: string)
    requires name in before && name in mid && name !in names && mid[name] == before[name]
    ensures forall id :: GoneFrom(before, mid[name := e], names + {name}, id) <==>
              GoneFrom(before, mid, names, id) || (id in before[name] && id !in e)
  {
    forall id
      ensures GoneFrom(before, mid[name := e], names + {name}, id) <==>
                GoneFrom(before, mid, names, id) || (id in before[name] && id !in e)
    {
      if GoneFrom(before, mid, names, id) {
        var x :| x in names && x in before && x in mid && id in before[x] && id !in mid[x];
        assert x in names + {name} && id !in mid[name := e][x];
      }
      if GoneFrom(before, mid[name := e], names + {name}, id) {
        var x :| x in names + {name} && x in before && x in mid[name := e] && id in before[x] && id !in mid[name := e][x];
        assert x != name ==> x in names && id !in mid[x];
      }
      if id in before[name] && id !in e {
        assert name in names + {name} && id !in mid[name := e][name];
      }
    }
  }

  // ---------- runs ----------

  /** A self-apply is an Applied like any other: nothing in the node tells who asked. */
  datatype Op =
    | Applied(request: Apply)
    | Removed(manifest: string, faults: Faults)
    | OwnerNamed(manifest: string, key: Key)     // task creation records an owner
    | Stopped(engine: string, workload: string)  // one workload removed by its id

  function Fresh(names: set<string>): State {
    State(map name | name in names :: map[], map[], {})
  }

  ghost function Step(s: State, op: Op): State {
    match op
    case Applied(a) => AfterApply(s, a)
    case Removed(m, f) => AfterRemove(s, m, f)
    case OwnerNamed(m, key) => s.(owners := Named(s.owners, m, key))
    case Stopped(e, id) => s.(engines := Without(s.engines, e, id))
  }

  /** The state after the first n operations. */
  ghost function After(names: set<string>, ops: seq<Op>, n: nat): State
    requires n <= |ops|
  {
    if n == 0 then Fresh(names) else Step(After(names, ops, n - 1), ops[n - 1])
  }

  ghost predicate Hosts(s: State, name: string, id: string, m: string) {
    name in s.engines && id in s.engines[name] && s.engines[name][id].manifest == m
  }

  /** Every workload deployed with an owner key has an owner entry. */
  ghost predicate Owned(s: State) {
    forall name, id :: name in s.engines && id in s.engines[name] && s.engines[name][id].signed ==>
      s.engines[name][id].manifest in s.owners
  }

  lemma {:induction false} RemoveKeepsOwned(s: State, m: string, f: Faults)
    requires Owned(s)
    ensures Owned(AfterRemove(s, m, f))
  {
    var t := AfterRemove(s, m, f);
    forall name, id | name in t.engines && id in t.engines[name] && t.engines[name][id].signed
      ensures t.engines[name][id].manifest in t.owners
    {
      var w := s.engines[name][id];
      assert Stays(name, id, w, m, f);
      assert w.manifest in s.owners;
      if ErrorFree(s, m, f) {
        assert CleanEngine(name, s.engines[name], m, f);
      }
    }
  }

  lemma {:induction false} ApplyKeepsOwned(s: State, a: Apply)
    requires Owned(s)
    ensures Owned(AfterApply(s, a))
  {
  }

  /** The ownership invariant holds on every run. */
  lemma {:induction false} AlwaysOwned(names: set<string>, ops: seq<Op>, n: nat)
    requires n <= |ops|
    ensures Owned(After(names, ops, n))
  {
    if n > 0 {
      AlwaysOwned(names, ops, n - 1);
      match ops[n - 1]
      case Applied(a) => ApplyKeepsOwned(After(names, ops, n - 1), a);
      case Removed(m, f) => RemoveKeepsOwned(After(names, ops, n - 1), m, f);
      case OwnerNamed(_, _) =>
      case Stopped(_, _) =>
    }
  }

  /** What a removal achieves: everything on an error-free one, no lost owner otherwise, nothing to other manifests. */
  lemma {:induction false} RemovalEffect(s: State, m: string, f: Faults)
    ensures ErrorFree(s, m, f) ==>
              m !in AfterRemove(s, m, f).owners && forall name, id :: !Hosts(AfterRemove(s, m, f), name, id, m)
    ensures !ErrorFree(s, m, f) ==> AfterRemove(s, m, f).owners == s.owners
    ensures AfterRemove(s, m, f).owners - {m} == s.owners - {m}
    ensures forall other, name, id :: other != m ==>
              (Hosts(AfterRemove(s, m, f), name, id, other) <==> Hosts(s, name, id, other))
  {
    var t := AfterRemove(s, m, f);
    if ErrorFree(s, m, f) {
      forall name, id
        ensures !Hosts(t, name, id, m)
      {
        assert name in s.engines ==> CleanEngine(name, s.engines[name], m, f);
      }
    }
    forall other, name, id | other != m
      ensures Hosts(t, name, id, other) <==> Hosts(s, name, id, other)
    {
      if name in s.engines {
        assert t.engines[name] == Swept(name, s.engines[name], m, f);
      }
    }
  }

  /** The key recorded for m: that of the latest keyed request since the last error-free removal. */
  ghost predicate RecordedBy(names: set<string>, ops: seq<Op>, n: nat, j: int, m: string)
    requires n <= |ops|
  {
    && 0 <= j < n
    && Records(ops[j], m)
    && forall i :: j < i < n ==> !Records(ops[i], m) && !Clears(After(names, ops, i), ops[i], m)
  }

  predicate Records(op: Op, m: string) {
    || (op.Applied? && op.request.decrypts && op.request.key != [] && op.request.manifest == m)
    || (op.OwnerNamed? && op.key != [] && op.manifest == m)
  }

  function KeyOf(op: Op): Key
    requires op.Applied? || op.OwnerNamed?
  {
    if op.Applied? then op.request.key else op.key
  }

  ghost predicate Clears(s: State, op: Op, m: string) {
    op.Removed? && op.manifest == m && ErrorFree(s, m, op.faults)
  }

  /** The entry for m is there iff some request recorded it and nothing cleared it, and is that request's key. */
  ghost predicate TellsOwner(names: set<string>, ops: seq<Op>, n: nat, m: string, owners: map<string, Key>)
    requires n <= |ops|
  {
    && (m in owners ==> exists j :: RecordedBy(names, ops, n, j, m) && owners[m] == KeyOf(ops[j]))
    && forall j :: RecordedBy(names, ops, n, j, m) ==> m in owners && owners[m] == KeyOf(ops[j])
  }

  /** The owner map, read off the history. */
  lemma {:induction false} OwnerIsLatest(names: set<string>, ops: seq<Op>, n: nat, m: string)
    requires n <= |ops|
    ensures TellsOwner(names, ops, n, m, After(names, ops, n).owners)
  {
    if n > 0 {
      OwnerIsLatest(names, ops, n - 1, m);
      OwnerStep(After(names, ops, n - 1), ops[n - 1], m);
      TellsOneMore(names, ops, n, m, After(names, ops, n - 1).owners, After(names, ops, n).owners);
    }
  }

  lemma {:induction false} TellsOneMore(names: set<string>, ops: seq<Op>, n: nat, m: string,
                                        before: map<string, Key>, now: map<string, Key>)
    requires 0 < n <= |ops| && TellsOwner(names, ops, n - 1, m, before)
    requires if Records(ops[n - 1], m) then m in now && now[m] == KeyOf(ops[n - 1])
             else if Clears(After(names, ops, n - 1), ops[n - 1], m) then m !in now
             else (m in now <==> m in before) && (m in before ==> now[m] == before[m])
    ensures TellsOwner(names, ops, n, m, now)
  {
    if Records(ops[n - 1], m) {
      assert RecordedBy(names, ops, n, n - 1, m);
    } else if m in now {
      var j :| RecordedBy(names, ops, n - 1, j, m) && before[m] == KeyOf(ops[j]);
      RecordedOneMore(names, ops, n, j, m);
    }
    forall j | RecordedBy(names, ops, n, j, m)
      ensures m in now && now[m] == KeyOf(ops[j])
    {
      RecordedOneMore(names, ops, n, j, m);
    }
  }

  lemma {:induction false} RecordedOneMore(names: set<string>, ops: seq<Op>, n: nat, j: int, m: string)
    requires 0 < n <= |ops|
    ensures j < n - 1 ==>
              (RecordedBy(names, ops, n, j, m) <==>
                 && RecordedBy(names, ops, n - 1, j, m)
                 && !Records(ops[n - 1], m) && !Clears(After(names, ops, n - 1), ops[n - 1], m))
  {
  }

  lemma {:induction false} OwnerStep(s: State, op: Op, m: string)
    ensures var t := Step(s, op);
            if Records(op, m) then m in t.owners && t.owners[m] == KeyOf(op)
            else if Clears(s, op, m) then m !in t.owners
            else (m in t.owners <==> m in s.owners) && (m in s.owners ==> t.owners[m] == s.owners[m])
  {
  }

  /** Request j hosted a workload of m, and no removal of m, failed or not, came after it. */
  ghost predicate AnnouncedBy(names: set<string>, ops: seq<Op>, n: nat, j: int, m: string)
    requires n <= |ops|
  {
    && 0 <= j < n
    && Announces(After(names, ops, j), ops[j], m)
    && forall i :: j < i < n ==> !Withdraws(ops[i], m)
  }

  predicate Announces(s: State, op: Op, m: string) {
    op.Applied? && op.request.manifest == m && Deploys(s, op.request)
  }

  predicate Withdraws(op: Op, m: string) {
    op.Removed? && op.manifest == m
  }

  /** A manifest is announced iff it was deployed since its last removal; even a removal with errors withdraws it. */
  lemma {:induction false} ProvidingIsHistory(names: set<string>, ops: seq<Op>, n: nat, m: string)
    requires n <= |ops|
    ensures m in After(names, ops, n).providing <==> exists j :: AnnouncedBy(names, ops, n, j, m)
  {
    if n > 0 {
      ProvidingIsHistory(names, ops, n - 1, m);
      var before, now, op := After(names, ops, n - 1), After(names, ops, n), ops[n - 1];
      if Announces(before, op, m) {
        assert AnnouncedBy(names, ops, n, n - 1, m);
      } else if m in now.providing {
        var j :| AnnouncedBy(names, ops, n - 1, j, m);
        assert AnnouncedBy(names, ops, n, j, m);
      }
      if j :| AnnouncedBy(names, ops, n, j, m) && j < n - 1 {
        assert AnnouncedBy(names, ops, n - 1, j, m) && !Withdraws(ops[n - 1], m);
      }
    }
  }

  // ---------- hosted and announced ----------

  /** Every hosted manifest is announced. */
  ghost predicate Announced(s: State) {
    forall name, id :: name in s.engines && id in s.engines[name] ==> s.engines[name][id].manifest in s.providing
  }

  /** The removal cannot list the engine, or cannot remove the workload. */
  predicate Faulty(name: string, id: string, f: Faults) {
    name in f.listing || (name, id) in f.removing
  }

  ghost predicate LeavesBehind(s: State, m: string, f: Faults) {
    exists name, id :: Hosts(s, name, id, m) && Faulty(name, id, f)
  }

  /** A deployment always keeps this; a removal keeps it iff it meets no fault on a workload of its manifest. */
  lemma {:induction false} RemovalKeepsAnnounced(s: State, m: string, f: Faults)
    requires Announced(s)
    ensures Announced(AfterRemove(s, m, f)) <==> !LeavesBehind(s, m, f)
  {
    var t := AfterRemove(s, m, f);
    if LeavesBehind(s, m, f) {
      var name, id :| Hosts(s, name, id, m) && Faulty(name, id, f);
      assert t.engines[name][id].manifest == m;
    } else {
      forall name, id | name in t.engines && id in t.engines[name]
        ensures t.engines[name][id].manifest in t.providing
      {
        assert s.engines[name][id].manifest in s.providing;
        assert Stays(name, id, s.engines[name][id], m, f);
        assert Hosts(s, name, id, m) ==> !Faulty(name, id, f);
      }
    }
  }

  ghost predicate LeavesBehindAt(names: set<string>, ops: seq<Op>, j: nat)
    requires j < |ops|
  {
    ops[j].Removed? && LeavesBehind(After(names, ops, j), ops[j].manifest, ops[j].faults)
  }

  /** A run announces every hosted manifest throughout iff none of its removals leaves a workload behind. */
  lemma {:induction false} AnnouncedThroughout(names: set<string>, ops: seq<Op>, n: nat)
    requires n <= |ops|
    ensures AnnouncedUpTo(names, ops, n) <==> forall j :: 0 <= j < n ==> !LeavesBehindAt(names, ops, j)
  {
    if n > 0 {
      AnnouncedThroughout(names, ops, n - 1);
      var s := After(names, ops, n - 1);
      if Announced(s) {
        match ops[n - 1]
        case Applied(a) =>
        case Removed(m, f) => RemovalKeepsAnnounced(s, m, f);
        case OwnerNamed(_, _) =>
        case Stopped(_, _) =>
      }
      assert Announced(s) ==> (Announced(After(names, ops, n)) <==> !LeavesBehindAt(names, ops, n - 1));
    }
  }

  /** Every hosted manifest is announced after each of the first n operations. */
  ghost predicate AnnouncedUpTo(names: set<string>, ops: seq<Op>, n: nat)
    requires n <= |ops|
  {
    Announced(After(names, ops, n)) && (n > 0 ==> AnnouncedUpTo(names, ops, n - 1))
  }

  /** Another workload takes the place, or the one in it is removed by its id. */
  predicate Replaces(s: State, op: Op, name: string, id: string) {
    || (op.Applied? && Deploys(s, op.request) && op.request.placement.value == Placement(name, id))
    || op == Stopped(name, id)
  }

  /** Removal j of m left the workload behind; since then m was not deployed or removed, nor its place taken. */
  ghost predicate LeftBehindBy(names: set<string>, ops: seq<Op>, n: nat, j: int, name: string, id: string, m: string)
    requires n <= |ops|
  {
    && 0 <= j < n && Withdraws(ops[j], m)
    && Hosts(After(names, ops, j), name, id, m) && Faulty(name, id, ops[j].faults)
    && forall i :: j < i < n ==> Undisturbed(After(names, ops, i), ops[i], name, id, m)
  }

  ghost predicate Undisturbed(s: State, op: Op, name: string, id: string, m: string) {
    !Announces(s, op, m) && !Withdraws(op, m) && !Replaces(s, op, name, id)
  }

  /** What one operation does to one hosted workload. */
  lemma {:induction false} HostsStep(s: State, op: Op, name: string, id: string, m: string)
    ensures Undisturbed(s, op, name, id, m) ==>
              && (Hosts(Step(s, op), name, id, m) <==> Hosts(s, name, id, m))
              && (m in Step(s, op).providing <==> m in s.providing)
    ensures Announces(s, op, m) ==> m in Step(s, op).providing
    ensures Withdraws(op, m) ==>
              && m !in Step(s, op).providing
              && (Hosts(Step(s, op), name, id, m) <==> Hosts(s, name, id, m) && Faulty(name, id, op.faults))
    ensures Replaces(s, op, name, id) && !Announces(s, op, m) ==> !Hosts(Step(s, op), name, id, m)
  {
    if op.Removed? && name in s.engines {
      assert Step(s, op).engines[name] == Swept(name, s.engines[name], op.manifest, op.faults);
    }
  }

  /** On every run a hosted workload is unannounced iff a removal with an error on it was the last word on its manifest. */
  lemma {:induction false} UnannouncedIff(names: set<string>, ops: seq<Op>, n: nat, name: string, id: string, m: string)
    requires n <= |ops|
    ensures (Hosts(After(names, ops, n), name, id, m) && m !in After(names, ops, n).providing) <==>
              exists j :: LeftBehindBy(names, ops, n, j, name, id, m)
  {
    if n > 0 {
      UnannouncedIff(names, ops, n - 1, name, id, m);
      var s, op := After(names, ops, n - 1), ops[n - 1];
      HostsStep(s, op, name, id, m);
      if Hosts(After(names, ops, n), name, id, m) && m !in After(names, ops, n).providing {
        if Withdraws(op, m) {
          assert LeftBehindBy(names, ops, n, n - 1, name, id, m);
        } else {
          var j :| LeftBehindBy(names, ops, n - 1, j, name, id, m);
          assert LeftBehindBy(names, ops, n, j, name, id, m);
        }
      }
      if j :| LeftBehindBy(names, ops, n, j, name, id, m) && j < n - 1 {
        assert LeftBehindBy(names, ops, n - 1, j, name, id, m);
        assert Undisturbed(s, op, name, id, m);
      }
    }
  }

  /** It happens: a deployment, and a removal whose listing fails. */
  lemma {:induction false} FailedRemovalHides(m: string, key: Key, engine: string, id: string)
    ensures var ops := [Applied(Apply(m, key, true, Some(Placement(engine, id)))), Removed(m, Faults({engine}, {}))];
            var t := After({engine}, ops, 2);
            Hosts(t, engine, id, m) && m !in t.providing
  {
    var ops := [Applied(Apply(m, key, true, Some(Placement(engine, id)))), Removed(m, Faults({engine}, {}))];
    assert Hosts(After({engine}, ops, 1), engine, id, m);
    assert LeftBehindBy({engine}, ops, 2, 1, engine, id, m);
    UnannouncedIff({engine}, ops, 2, engine, id, m);
  }

  // ---------- an owner of nothing ----------

  ghost predicate HostsNone(s: State, m: string) {
    forall name, id :: !Hosts(s, name, id, m)
  }

  ghost predicate Orphan(s: State, m: string) {
    m in s.owners && HostsNone(s, m)
  }

  /** A removal leaves an owner of nothing iff there was an owner and the error was elsewhere. */
  lemma {:induction false} RemovalOrphansIff(s: State, m: string, f: Faults)
    ensures Orphan(AfterRemove(s, m, f), m) <==> m in s.owners && !ErrorFree(s, m, f) && !LeavesBehind(s, m, f)
  {
    var t := AfterRemove(s, m, f);
    forall name, id
      ensures Hosts(t, name, id, m) <==> Hosts(s, name, id, m) && Faulty(name, id, f)
    {
      HostsStep(s, Removed(m, f), name, id, m);
    }
  }

  /** Operation h hosted a workload of m in this place. */
  predicate HostedAt(s: State, op: Op, name: string, id: string, m: string) {
    Announces(s, op, m) && op.request.placement.value == Placement(name, id)
  }

  /** The place loses whatever workload of m it has: swept without a fault on it, replaced or stopped. */
  predicate Vacates(s: State, op: Op, name: string, id: string, m: string) {
    Replaces(s, op, name, id) || (Withdraws(op, m) && !Faulty(name, id, op.faults))
  }

  ghost predicate VacatedSince(names: set<string>, ops: seq<Op>, n: nat, h: int, name: string, id: string, m: string)
    requires n <= |ops|
  {
    exists x :: 0 <= h < x < n && Vacates(After(names, ops, x), ops[x], name, id, m)
  }

  ghost predicate PlacedBy(names: set<string>, ops: seq<Op>, n: nat, h: int, name: string, id: string, m: string)
    requires n <= |ops|
  {
    0 <= h < n && HostedAt(After(names, ops, h), ops[h], name, id, m) && !VacatedSince(names, ops, n, h, name, id, m)
  }

  lemma {:induction false} PlaceStep(s: State, op: Op, name: string, id: string, m: string)
    ensures Hosts(Step(s, op), name, id, m) <==>
              HostedAt(s, op, name, id, m) || (Hosts(s, name, id, m) && !Vacates(s, op, name, id, m))
  {
    HostsStep(s, op, name, id, m);
  }

  lemma {:induction false} PlacedOneMore(names: set<string>, ops: seq<Op>, n: nat, h: int, name: string, id: string, m: string)
    requires 0 < n <= |ops| && h < n - 1
    ensures PlacedBy(names, ops, n, h, name, id, m) <==>
              PlacedBy(names, ops, n - 1, h, name, id, m) && !Vacates(After(names, ops, n - 1), ops[n - 1], name, id, m)
  {
    if x :| 0 <= h < x < n - 1 && Vacates(After(names, ops, x), ops[x], name, id, m) {
      assert VacatedSince(names, ops, n, h, name, id, m) && VacatedSince(names, ops, n - 1, h, name, id, m);
    }
  }

  /** What is hosted, read off the history. */
  lemma {:induction false} HostedIffPlaced(names: set<string>, ops: seq<Op>, n: nat, name: string, id: string, m: string)
    requires n <= |ops|
    ensures Hosts(After(names, ops, n), name, id, m) <==> exists h :: PlacedBy(names, ops, n, h, name, id, m)
  {
    if n > 0 {
      HostedIffPlaced(names, ops, n - 1, name, id, m);
      var s, op := After(names, ops, n - 1), ops[n - 1];
      PlaceStep(s, op, name, id, m);
      if HostedAt(s, op, name, id, m) {
        assert PlacedBy(names, ops, n, n - 1, name, id, m);
      } else if Hosts(After(names, ops, n), name, id, m) {
        var h :| PlacedBy(names, ops, n - 1, h, name, id, m);
        PlacedOneMore(names, ops, n, h, name, id, m);
      }
      if h :| PlacedBy(names, ops, n, h, name, id, m) && h < n - 1 {
        PlacedOneMore(names, ops, n, h, name, id, m);
      }
    }
  }

  /**
   On every run m is an owner's with nothing hosted iff a recorded owner stands and every
   workload of m hosted so far was swept without a fault on it, replaced or stopped.
   */
  lemma {:induction false} OrphanIff(names: set<string>, ops: seq<Op>, n: nat, m: string)
    requires n <= |ops|
    ensures Orphan(After(names, ops, n), m) <==>
              && (exists j :: RecordedBy(names, ops, n, j, m))
              && (forall h, name, id :: 0 <= h < n && HostedAt(After(names, ops, h), ops[h], name, id, m) ==>
                    VacatedSince(names, ops, n, h, name, id, m))
  {
    OwnerIsLatest(names, ops, n, m);
    forall name, id
      ensures Hosts(After(names, ops, n), name, id, m) <==> exists h :: PlacedBy(names, ops, n, h, name, id, m)
    {
      HostedIffPlaced(names, ops, n, name, id, m);
    }
    if HostsNone(After(names, ops, n), m) {
      forall h, name, id | 0 <= h < n && HostedAt(After(names, ops, h), ops[h], name, id, m)
        ensures VacatedSince(names, ops, n, h, name, id, m)
      {
        assert !Hosts(After(names, ops, n), name, id, m);
        assert !PlacedBy(names, ops, n, h, name, id, m);
      }
    }
  }

  /** The ways it happens: a deployment that fails, a fault on another engine, another manifest in the same place. */
  lemma {:induction false} OrphansHappen(m: string, other: string, key: Key, a: string, b: string, id: string)
    requires key != [] && a != b && m != other
    ensures Orphan(After({a, b}, [Applied(Apply(m, key, true, None))], 1), m)
    ensures Orphan(After({a, b}, [Applied(Apply(m, key, true, Some(Placement(a, id)))), Removed(m, Faults({b}, {}))], 2), m)
    ensures Orphan(After({a, b}, [Applied(Apply(m, key, true, Some(Placement(a, id)))),
                                  Applied(Apply(other, key, true, Some(Placement(a, id))))], 2), m)
  {
    var s := Fresh({a, b});
    var deployed := Applied(Apply(m, key, true, Some(Placement(a, id))));
    var t := Step(s, deployed);
    assert HostsNone(Step(s, Applied(Apply(m, key, true, None))), m);
    var removal := [deployed, Removed(m, Faults({b}, {}))];
    assert After({a, b}, removal, 1) == t;
    assert !CleanEngine(b, t.engines[b], m, Faults({b}, {}));
    RemovalOrphansIff(t, m, Faults({b}, {}));
    var replacement := [deployed, Applied(Apply(other, key, true, Some(Placement(a, id))))];
    assert After({a, b}, replacement, 1) == t;
    assert HostsNone(After({a, b}, replacement, 2), m);
  }
}
