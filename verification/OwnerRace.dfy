/**
 Applies and removals with their lock sections as they are
 (machineplane/machine/src/workload_integration.rs:306-428, 718-817): recording the owner,
 hosting the workload, announcing it, listing an engine, removing one workload, withdrawing
 the announcement and dropping the owner are separate steps, and any number of calls
 interleave them. A deployment that fails after the owner was recorded is one that never hosts.
 */
module OwnerRace {
  import opened Basics
  import opened WorkloadOwners

  /**
   A removal under way: what each engine listed so far still has to remove, whether anything
   failed, and whether the announcement has been withdrawn.
   */
  datatype Removal = Removal(manifest: string, pending: map<string, set<string>>, failed: bool, withdrawn: bool)

  /** `applies` have recorded and not hosted, `hosted` have hosted and not announced their manifest. */
  datatype Shared = Shared(engines: map<string, Engine>, owners: map<string, Key>, providing: set<string>,
                           applies: map<nat, Apply>, hosted: map<nat, string>, removals: map<nat, Removal>)

  datatype Action =
    | Record(call: nat, request: Apply)                       // the owner key, if there is one
    | Host(call: nat, request: Apply)                         // the engine accepts the workload
    | Announce(call: nat, manifest: string)                   // the end of an apply
    | Begin(call: nat, manifest: string)                      // a removal starts
    | List(call: nat, engine: string, ok: bool)               // snapshot of one engine's workloads
    | Take(call: nat, engine: string, id: string, ok: bool)   // remove one listed workload
    | Withdraw(call: nat, manifest: string)                   // every engine done: the announcement goes
    | Drop(call: nat, manifest: string, clean: bool)          // the end: without an error the owner goes
    | Name(manifest: string, key: Key)                        // task creation records an owner
    | Stop(engine: string, id: string)                        // one workload removed by its id

  /** The actions spell out what the state says, so that a schedule can be read without it. */
  predicate Enabled(s: Shared, a: Action) {
    match a
    case Record(c, q) => c !in s.applies && c !in s.hosted && q.decrypts
    case Host(c, q) =>
      c in s.applies && s.applies[c] == q && q.placement.Some? && q.placement.value.engine in s.engines
    case Announce(c, m) => c in s.hosted && s.hosted[c] == m
    case Begin(c, _) => c !in s.removals
    case List(c, e, _) => c in s.removals && e in s.engines && e !in s.removals[c].pending
    case Take(c, e, id, _) => c in s.removals && e in s.removals[c].pending && id in s.removals[c].pending[e]
    case Withdraw(c, m) =>
      && c in s.removals && s.removals[c].manifest == m && !s.removals[c].withdrawn
      && forall e :: e in s.engines ==> e in s.removals[c].pending && s.removals[c].pending[e] == {}
    case Drop(c, m, clean) =>
      c in s.removals && s.removals[c].manifest == m && s.removals[c].withdrawn && clean == !s.removals[c].failed
    case Name(_, key) => key != []
    case Stop(e, _) => e in s.engines
  }

  function Listed(engine: Engine, m: string): set<string> {
    set id | id in engine && engine[id].manifest == m
  }

  function WorkloadOf(q: Apply): Workload {
    Workload(q.manifest, q.key != [])
  }

  function Exec(s: Shared, a: Action): Shared
    requires Enabled(s, a)
  {
    match a
    case Record(c, q) => s.(owners := Recorded(s.owners, q), applies := s.applies[c := q])
    case Host(c, q) =>
      s.(engines := Hosted(s.engines, q.placement.value, WorkloadOf(q)), applies := s.applies - {c},
         hosted := s.hosted[c := q.manifest])
    case Announce(c, m) => s.(providing := s.providing + {m}, hosted := s.hosted - {c})
    case Begin(c, m) => s.(removals := s.removals[c := Removal(m, map[], false, false)])
    case List(c, e, ok) =>
      var r := s.removals[c];
      s.(removals := s.removals[c :=
        if ok then r.(pending := r.pending[e := Listed(s.engines[e], r.manifest)])
        else r.(pending := r.pending[e := {}], failed := true)])
    case Take(c, e, id, ok) =>
      var r := s.removals[c];
      s.(engines := if ok then Without(s.engines, e, id) else s.engines,
         removals := s.removals[c := r.(pending := r.pending[e := r.pending[e] - {id}], failed := r.failed || !ok)])
    case Withdraw(c, m) =>
      s.(providing := s.providing - {m}, removals := s.removals[c := s.removals[c].(withdrawn := true)])
    case Drop(c, m, clean) =>
      s.(owners := if clean then s.owners - {m} else s.owners, removals := s.removals - {c})
    case Name(m, key) => s.(owners := Named(s.owners, m, key))
    case Stop(e, id) => s.(engines := Without(s.engines, e, id))
  }

  function Begun(names: set<string>): Shared {
    Shared(Fresh(names).engines, map[], {}, map[], map[], map[])
  }

  /** The first n actions can happen in this order. */
  predicate Schedule(names: set<string>, actions: seq<Action>, n: nat)
    requires n <= |actions|
    decreases n, 0
  {
    n == 0 || (Schedule(names, actions, n - 1) && Enabled(Reached(names, actions, n - 1), actions[n - 1]))
  }

  function Reached(names: set<string>, actions: seq<Action>, n: nat): Shared
    requires n <= |actions| && Schedule(names, actions, n)
    decreases n, 1
  {
    if n == 0 then Begun(names) else Exec(Reached(names, actions, n - 1), actions[n - 1])
  }

  lemma {:induction false} EnabledAt(names: set<string>, actions: seq<Action>, n: nat, j: nat)
    requires j < n <= |actions| && Schedule(names, actions, n)
    ensures Schedule(names, actions, j) && Enabled(Reached(names, actions, j), actions[j])
  {
    if j < n - 1 {
      EnabledAt(names, actions, n - 1, j);
    }
  }

  /** What the steps change for good, without the calls under way. */
  function Settled(s: Shared): State {
    State(s.engines, s.owners, s.providing)
  }

  /** Run without interruption, the steps of an apply are the one atomic apply. */
  lemma {:induction false} UninterruptedApply(s: Shared, c: nat, q: Apply)
    requires c !in s.applies && c !in s.hosted && q.decrypts
    ensures Enabled(s, Record(c, q))
    ensures var recorded := Exec(s, Record(c, q));
            if Deploys(Settled(s), q) then
              && Enabled(recorded, Host(c, q))
              && var hosted := Exec(recorded, Host(c, q));
                 && Enabled(hosted, Announce(c, q.manifest))
                 && Settled(Exec(hosted, Announce(c, q.manifest))) == AfterApply(Settled(s), q)
            else
              && !Enabled(recorded, Host(c, q))
              && Settled(recorded) == AfterApply(Settled(s), q)
  {
  }

  // ---------- the owner map, read off the schedule ----------

  predicate Records(a: Action, m: string) {
    (a.Record? && a.request.key != [] && a.request.manifest == m) || (a.Name? && a.manifest == m)
  }

  predicate Clears(a: Action, m: string) {
    a.Drop? && a.clean && a.manifest == m
  }

  /** Action j recorded an owner of m and nothing cleared it since. */
  ghost predicate KeptRecord(actions: seq<Action>, n: nat, j: int, m: string)
    requires n <= |actions|
  {
    0 <= j < n && Records(actions[j], m) && forall x :: j < x < n ==> !Clears(actions[x], m)
  }

  lemma {:induction false} OwnerAction(s: Shared, a: Action, m: string)
    requires Enabled(s, a)
    ensures m in Exec(s, a).owners <==> Records(a, m) || (m in s.owners && !Clears(a, m))
  {
  }

  lemma {:induction false} OwnerIffKept(names: set<string>, actions: seq<Action>, n: nat, m: string)
    requires n <= |actions| && Schedule(names, actions, n)
    ensures m in Reached(names, actions, n).owners <==> exists j :: KeptRecord(actions, n, j, m)
  {
    if n > 0 {
      OwnerIffKept(names, actions, n - 1, m);
      var a := actions[n - 1];
      OwnerAction(Reached(names, actions, n - 1), a, m);
      if Records(a, m) {
        assert KeptRecord(actions, n, n - 1, m);
      } else if m in Reached(names, actions, n).owners {
        var j :| KeptRecord(actions, n - 1, j, m);
        assert KeptRecord(actions, n, j, m);
      }
      if j :| KeptRecord(actions, n, j, m) && j < n - 1 {
        assert KeptRecord(actions, n - 1, j, m) && !Clears(a, m);
      }
    }
  }

  // ---------- a workload slot, read off the schedule ----------

  predicate Fills(a: Action, e: string, id: string) {
    a.Host? && a.request.placement == Some(Placement(e, id))
  }

  predicate Touches(a: Action, e: string, id: string) {
    Fills(a, e, id) || (a.Take? && a.ok && a.engine == e && a.id == id) || a == Stop(e, id)
  }

  /** Action h put a workload in the slot, and nothing touched the slot since. */
  ghost predicate Placed(actions: seq<Action>, n: nat, h: int, e: string, id: string)
    requires n <= |actions|
  {
    0 <= h < n && Fills(actions[h], e, id) && forall x :: h < x < n ==> !Touches(actions[x], e, id)
  }

  predicate Occupied(s: Shared, e: string, id: string) {
    e in s.engines && id in s.engines[e]
  }

  /** What one action does to one slot. */
  lemma {:induction false} SlotStep(s: Shared, a: Action, e: string, id: string)
    requires Enabled(s, a)
    ensures Fills(a, e, id) ==> Occupied(Exec(s, a), e, id) && Exec(s, a).engines[e][id] == WorkloadOf(a.request)
    ensures Touches(a, e, id) && !Fills(a, e, id) ==> !Occupied(Exec(s, a), e, id)
    ensures !Touches(a, e, id) ==>
              && (Occupied(Exec(s, a), e, id) <==> Occupied(s, e, id))
              && (Occupied(s, e, id) ==> Exec(s, a).engines[e][id] == s.engines[e][id])
    ensures Exec(s, a).engines.Keys == s.engines.Keys
  {
  }

  lemma {:induction false} OccupiedIsPlaced(names: set<string>, actions: seq<Action>, n: nat, e: string, id: string) returns (h: nat)
    requires n <= |actions| && Schedule(names, actions, n) && Occupied(Reached(names, actions, n), e, id)
    ensures Placed(actions, n, h, e, id)
  {
    if n == 0 {
      assert false;
    }
    SlotStep(Reached(names, actions, n - 1), actions[n - 1], e, id);
    if Fills(actions[n - 1], e, id) {
      h := n - 1;
    } else {
      h := OccupiedIsPlaced(names, actions, n - 1, e, id);
    }
  }

  lemma {:induction false} PlacedIsOccupied(names: set<string>, actions: seq<Action>, n: nat, h: nat, e: string, id: string)
    requires n <= |actions| && Schedule(names, actions, n) && Placed(actions, n, h, e, id)
    ensures Occupied(Reached(names, actions, n), e, id)
    ensures Reached(names, actions, n).engines[e][id] == WorkloadOf(actions[h].request)
  {
    SlotStep(Reached(names, actions, n - 1), actions[n - 1], e, id);
    if h < n - 1 {
      PlacedIsOccupied(names, actions, n - 1, h, e, id);
    }
  }

  /** Whoever hosts has recorded before. */
  lemma {:induction false} HostFollowsRecord(names: set<string>, actions: seq<Action>, n: nat, c: nat) returns (r: nat)
    requires n <= |actions| && Schedule(names, actions, n) && c in Reached(names, actions, n).applies
    ensures r < n && actions[r] == Record(c, Reached(names, actions, n).applies[c])
  {
    if n == 0 {
      assert false;
    }
    if actions[n - 1].Record? && actions[n - 1].call == c {
      r := n - 1;
    } else {
      r := HostFollowsRecord(names, actions, n - 1, c);
    }
  }

  // ---------- what a removal leaves behind ----------

  /** Removal c listed the engine at l, and is still under way. */
  ghost predicate Scanned(actions: seq<Action>, n: nat, c: nat, e: string, l: int)
    requires n <= |actions|
  {
    0 <= l < n && actions[l] == List(c, e, true) && forall x :: l < x < n ==> !(actions[x].Drop? && actions[x].call == c)
  }

  lemma {:induction false} ListedIsScanned(names: set<string>, actions: seq<Action>, n: nat, c: nat, e: string) returns (l: nat)
    requires n <= |actions| && Schedule(names, actions, n)
    requires var s := Reached(names, actions, n);
             c in s.removals && e in s.removals[c].pending && !s.removals[c].failed
    ensures Scanned(actions, n, c, e, l)
  {
    if n == 0 {
      assert false;
    }
    if actions[n - 1] == List(c, e, true) {
      l := n - 1;
    } else {
      l := ListedIsScanned(names, actions, n - 1, c, e);
    }
  }

  /** A removal that has withdrawn the announcement has listed every engine and has nothing left to take. */
  lemma {:induction false} WithdrawnIsDone(names: set<string>, actions: seq<Action>, n: nat, c: nat, e: string)
    requires n <= |actions| && Schedule(names, actions, n) && e in names
    requires var s := Reached(names, actions, n);
             c in s.removals && s.removals[c].withdrawn
    ensures var r := Reached(names, actions, n).removals[c];
            e in r.pending && r.pending[e] == {}
  {
    if n == 0 {
      assert false;
    }
    EnginesStay(names, actions, n - 1);
    var s, a := Reached(names, actions, n - 1), actions[n - 1];
    if !(a.Withdraw? && a.call == c) {
      WithdrawnBefore(s, a, c);
      WithdrawnIsDone(names, actions, n - 1, c, e);
    }
    DoneStep(s, a, c, e);
  }

  /** The removal has listed the engine and has nothing left to take there. */
  predicate DoneWith(s: Shared, c: nat, e: string) {
    c in s.removals && e in s.removals[c].pending && s.removals[c].pending[e] == {}
  }

  lemma {:induction false} WithdrawnBefore(s: Shared, a: Action, c: nat)
    requires Enabled(s, a) && !(a.Withdraw? && a.call == c)
    requires c in Exec(s, a).removals && Exec(s, a).removals[c].withdrawn
    ensures c in s.removals && s.removals[c].withdrawn
  {
  }

  lemma {:induction false} DoneStep(s: Shared, a: Action, c: nat, e: string)
    requires Enabled(s, a) && e in s.engines && c in Exec(s, a).removals
    requires DoneWith(s, c, e) || (a.Withdraw? && a.call == c)
    ensures DoneWith(Exec(s, a), c, e)
  {
  }

  /** The workload in the slot was hosted after the removal had listed the engine. */
  ghost predicate Late(actions: seq<Action>, n: nat, c: nat, e: string, id: string)
    requires n <= |actions|
  {
    exists l, h :: Scanned(actions, n, c, e, l) && Placed(actions, n, h, e, id) && l < h
  }

  /** The removal, without a failure so far, has listed the engine and will not remove this workload of its manifest. */
  predicate Unlisted(s: Shared, c: nat, e: string, id: string) {
    && c in s.removals && !s.removals[c].failed && e in s.removals[c].pending
    && Occupied(s, e, id) && s.engines[e][id].manifest == s.removals[c].manifest
    && id !in s.removals[c].pending[e]
  }

  lemma {:induction false} UnlistedBefore(s: Shared, a: Action, c: nat, e: string, id: string)
    requires Enabled(s, a) && Unlisted(Exec(s, a), c, e, id) && !Fills(a, e, id)
    ensures Unlisted(s, c, e, id)
  {
    SlotStep(s, a, e, id);
  }

  /** A workload of the manifest that the removal will not remove came too late for its list. */
  lemma {:induction false} UnlistedIsLate(names: set<string>, actions: seq<Action>, n: nat, c: nat, e: string, id: string)
    requires n <= |actions| && Schedule(names, actions, n)
    requires Unlisted(Reached(names, actions, n), c, e, id)
    ensures Late(actions, n, c, e, id)
  {
    if n == 0 {
      assert false;
    }
    var a := actions[n - 1];
    SlotStep(Reached(names, actions, n - 1), a, e, id);
    var l := ListedIsScanned(names, actions, n, c, e);
    if Fills(a, e, id) {
      assert Placed(actions, n, n - 1, e, id);
    } else {
      UnlistedBefore(Reached(names, actions, n - 1), a, c, e, id);
      UnlistedIsLate(names, actions, n - 1, c, e, id);
      var l', h :| Scanned(actions, n - 1, c, e, l') && Placed(actions, n - 1, h, e, id) && l' < h;
      assert Scanned(actions, n, c, e, l') && Placed(actions, n, h, e, id);
    }
  }

  // ---------- exactly when an owner is lost ----------

  /** A workload deployed with an owner key, and no owner entry. */
  predicate Ownerless(s: Shared, e: string, id: string, m: string) {
    Occupied(s, e, id) && s.engines[e][id] == Workload(m, true) && m !in s.owners
  }

  /** One apply: it recorded the owner of m at r and hosted the workload, still there, at h. */
  ghost predicate AppliedAt(actions: seq<Action>, n: nat, e: string, id: string, m: string, r: int, h: int)
    requires n <= |actions|
  {
    && 0 <= r < h && Placed(actions, n, h, e, id)
    && actions[r] == Record(actions[h].call, actions[h].request)
    && Records(actions[r], m)
  }

  /** One removal of m without an error: it listed the engine at l and dropped the owner at d, the last word on m. */
  ghost predicate ClearedAt(actions: seq<Action>, n: nat, e: string, m: string, l: int, d: int)
    requires n <= |actions|
  {
    && 0 <= l < d < n && Clears(actions[d], m) && Scanned(actions, d, actions[d].call, e, l)
    && forall x :: d < x < n ==> !Records(actions[x], m)
  }

  /** The race: recorded before the drop, and hosted after the list. */
  ghost predicate Raced(actions: seq<Action>, n: nat, e: string, id: string, m: string, r: int, h: int, l: int, d: int)
    requires n <= |actions|
  {
    AppliedAt(actions, n, e, id, m, r, h) && ClearedAt(actions, n, e, m, l, d) && r < d && l < h
  }

  lemma {:induction false} LastRecord(actions: seq<Action>, n: nat, m: string, r: nat) returns (j: nat)
    requires n <= |actions| && r < n && Records(actions[r], m)
    ensures r <= j < n && Records(actions[j], m) && forall x :: j < x < n ==> !Records(actions[x], m)
    decreases n
  {
    if Records(actions[n - 1], m) {
      j := n - 1;
    } else {
      j := LastRecord(actions, n - 1, m, r);
    }
  }

  lemma {:induction false} PlacedEarlier(actions: seq<Action>, n: nat, d: nat, h: nat, h': nat, e: string, id: string)
    requires d <= n <= |actions| && Placed(actions, n, h, e, id) && h < d && Placed(actions, d, h', e, id)
    ensures h == h'
  {
    assert Touches(actions[h], e, id) && Touches(actions[h'], e, id);
  }

  /** Where the removal that dropped the owner had listed the engine: before the workload came. */
  lemma {:induction false} ListPrecedesHost(names: set<string>, actions: seq<Action>, n: nat, e: string, id: string, m: string,
                                            h: nat, d: nat) returns (l: nat)
    requires n <= |actions| && Schedule(names, actions, n) && d < n && Clears(actions[d], m)
    requires Placed(actions, n, h, e, id) && actions[h].request.manifest == m && e in names
    ensures l < d && l < h && Scanned(actions, d, actions[d].call, e, l)
  {
    EnabledAt(names, actions, n, d);
    var c := actions[d].call;
    WithdrawnIsDone(names, actions, d, c, e);
    if d < h {
      l := ListedIsScanned(names, actions, d, c, e);
    } else {
      assert actions[h] != actions[d];
      PlacedIsOccupied(names, actions, d, h, e, id);
      UnlistedIsLate(names, actions, d, c, e, id);
      var l', h' :| Scanned(actions, d, c, e, l') && Placed(actions, d, h', e, id) && l' < h';
      PlacedEarlier(actions, n, d, h, h', e, id);
      l := l';
    }
  }

  lemma {:induction false} EnginesStay(names: set<string>, actions: seq<Action>, n: nat)
    requires n <= |actions| && Schedule(names, actions, n)
    ensures Reached(names, actions, n).engines.Keys == names
  {
    if n > 0 {
      EnginesStay(names, actions, n - 1);
      SlotStep(Reached(names, actions, n - 1), actions[n - 1], "", "");
    }
  }

  /** On every interleaving, a signed workload is without an owner iff an apply and a removal raced. */
  lemma {:induction false} OwnerlessIffRaced(names: set<string>, actions: seq<Action>, n: nat, e: string, id: string, m: string)
    requires n <= |actions| && Schedule(names, actions, n)
    ensures Ownerless(Reached(names, actions, n), e, id, m) <==>
              exists r, h, l, d :: Raced(actions, n, e, id, m, r, h, l, d)
  {
    if Ownerless(Reached(names, actions, n), e, id, m) {
      var r, h, l, d := RaceOf(names, actions, n, e, id, m);
    }
    if r, h, l, d :| Raced(actions, n, e, id, m, r, h, l, d) {
      PlacedIsOccupied(names, actions, n, h, e, id);
      OwnerIffKept(names, actions, n, m);
      assert forall j :: KeptRecord(actions, n, j, m) ==> j < d;
    }
  }

  lemma {:induction false} RaceOf(names: set<string>, actions: seq<Action>, n: nat, e: string, id: string, m: string)
    returns (r: nat, h: nat, l: nat, d: nat)
    requires n <= |actions| && Schedule(names, actions, n) && Ownerless(Reached(names, actions, n), e, id, m)
    ensures Raced(actions, n, e, id, m, r, h, l, d)
  {
    h := OccupiedIsPlaced(names, actions, n, e, id);
    PlacedIsOccupied(names, actions, n, h, e, id);
    EnabledAt(names, actions, n, h);
    r := HostFollowsRecord(names, actions, h, actions[h].call);
    var j := LastRecord(actions, n, m, r);
    OwnerIffKept(names, actions, n, m);
    assert !KeptRecord(actions, n, j, m);
    d :| j < d < n && Clears(actions[d], m);
    EnginesStay(names, actions, n);
    l := ListPrecedesHost(names, actions, n, e, id, m, h, d);
  }

  /** Action j recorded an owner of m, and no owner of m was recorded or dropped since. */
  ghost predicate LastWord(actions: seq<Action>, n: nat, j: int, m: string)
    requires n <= |actions|
  {
    && 0 <= j < n && Records(actions[j], m)
    && forall x :: j < x < n ==> !Records(actions[x], m) && !Clears(actions[x], m)
  }

  /** A signed workload of m has an owner iff the last word on m, record or drop, was a record. */
  lemma {:induction false} OwnedIffRecordedLast(names: set<string>, actions: seq<Action>, n: nat, e: string, id: string, m: string)
    requires n <= |actions| && Schedule(names, actions, n)
    requires Occupied(Reached(names, actions, n), e, id)
    requires Reached(names, actions, n).engines[e][id] == Workload(m, true)
    ensures m in Reached(names, actions, n).owners <==> exists j :: LastWord(actions, n, j, m)
  {
    OwnerIffKept(names, actions, n, m);
    var h := OccupiedIsPlaced(names, actions, n, e, id);
    PlacedIsOccupied(names, actions, n, h, e, id);
    EnabledAt(names, actions, n, h);
    var r := HostFollowsRecord(names, actions, h, actions[h].call);
    var j := LastRecord(actions, n, m, r);
    if k :| KeptRecord(actions, n, k, m) {
      assert LastWord(actions, n, j, m);
    }
    if k :| LastWord(actions, n, k, m) {
      assert KeptRecord(actions, n, k, m);
    }
  }

  // ---------- one apply and one removal ----------

  /** One apply with a key, one removal of its manifest, nothing else and no error. */
  ghost predicate OneOfEach(actions: seq<Action>, e: string, id: string, m: string, r: nat, h: nat, l: nat, d: nat) {
    && r < |actions| && h < |actions| && l < |actions| && d < |actions|
    && Records(actions[r], m) && Fills(actions[h], e, id) && actions[h].request.manifest == m
    && actions[l].List? && actions[l].engine == e && Clears(actions[d], m)
    && forall x :: 0 <= x < |actions| ==> Alone(actions[x], x, e, r, h, l, d) && !Fails(actions[x])
  }

  predicate Alone(a: Action, x: nat, e: string, r: nat, h: nat, l: nat, d: nat) {
    match a
    case Record(_, _) => x == r
    case Host(_, _) => x == h
    case List(_, engine, _) => engine == e ==> x == l
    case Drop(_, _, _) => x == d
    case Name(_, _) => false
    case Stop(_, _) => false
    case _ => true
  }

  predicate Fails(a: Action) {
    ((a.List? || a.Take?) && !a.ok) || (a.Drop? && !a.clean)
  }

  /** What a removal has still to take was a workload of its manifest when it listed the engine. */
  lemma {:induction false} PendingWasThere(names: set<string>, actions: seq<Action>, n: nat, c: nat, e: string, id: string)
    returns (x: nat, l: nat)
    requires n <= |actions| && Schedule(names, actions, n)
    requires var s := Reached(names, actions, n);
             c in s.removals && e in s.removals[c].pending && id in s.removals[c].pending[e]
    ensures x < l < n && Fills(actions[x], e, id) && actions[l] == List(c, e, true)
    ensures Placed(actions, l, x, e, id) && actions[x].request.manifest == Reached(names, actions, n).removals[c].manifest
  {
    if n == 0 {
      assert false;
    }
    if actions[n - 1] == List(c, e, true) {
      l := n - 1;
      x := OccupiedIsPlaced(names, actions, n - 1, e, id);
      PlacedIsOccupied(names, actions, n - 1, x, e, id);
    } else {
      x, l := PendingWasThere(names, actions, n - 1, c, e, id);
    }
  }

  /** Over all schedules of the two: the owner is lost iff recorded before the drop and hosted after the list. */
  lemma {:induction false} LostIffRaced(names: set<string>, actions: seq<Action>, e: string, id: string, m: string,
                                        r: nat, h: nat, l: nat, d: nat)
    requires Schedule(names, actions, |actions|) && OneOfEach(actions, e, id, m, r, h, l, d)
    ensures Ownerless(Reached(names, actions, |actions|), e, id, m) <==> r < d && l < h
  {
    var n := |actions|;
    OwnerlessIffRaced(names, actions, n, e, id, m);
    if r', h', l', d' :| Raced(actions, n, e, id, m, r', h', l', d') {
      assert r == r' && h == h' && l == l' && d == d';
    }
    if r < d && l < h {
      EnabledAt(names, actions, n, h);
      EnginesStay(names, actions, h);
      var r' := HostFollowsRecord(names, actions, h, actions[h].call);
      assert r == r';
      assert Placed(actions, n, h, e, id) by {
        StaysPlaced(names, actions, e, id, m, r, h, l, d);
      }
      var l' := ListPrecedesHost(names, actions, n, e, id, m, h, d);
      assert forall x :: d < x < n ==> !Records(actions[x], m);
      assert Raced(actions, n, e, id, m, r, h, l', d);
    }
  }

  lemma {:induction false} StaysPlaced(names: set<string>, actions: seq<Action>, e: string, id: string, m: string,
                                       r: nat, h: nat, l: nat, d: nat)
    requires Schedule(names, actions, |actions|) && OneOfEach(actions, e, id, m, r, h, l, d) && l < h
    ensures Placed(actions, |actions|, h, e, id)
  {
    forall x | h < x < |actions|
      ensures !Touches(actions[x], e, id)
    {
      if actions[x].Take? && actions[x].engine == e && actions[x].id == id {
        EnabledAt(names, actions, |actions|, x);
        var y, l' := PendingWasThere(names, actions, x, actions[x].call, e, id);
      }
    }
  }

  // ---------- exactly when a hosted workload is not announced ----------

  predicate Announces(a: Action, m: string) {
    a.Announce? && a.manifest == m
  }

  predicate Withdraws(a: Action, m: string) {
    a.Withdraw? && a.manifest == m
  }

  ghost predicate KeptAnnounce(actions: seq<Action>, n: nat, j: int, m: string)
    requires n <= |actions|
  {
    0 <= j < n && Announces(actions[j], m) && forall x :: j < x < n ==> !Withdraws(actions[x], m)
  }

  lemma {:induction false} AnnouncementAction(s: Shared, a: Action, m: string)
    requires Enabled(s, a)
    ensures m in Exec(s, a).providing <==> Announces(a, m) || (m in s.providing && !Withdraws(a, m))
  {
  }

  /** A manifest is announced iff some announcement of it was not withdrawn since. */
  lemma {:induction false} ProvidingIffKept(names: set<string>, actions: seq<Action>, n: nat, m: string)
    requires n <= |actions| && Schedule(names, actions, n)
    ensures m in Reached(names, actions, n).providing <==> exists j :: KeptAnnounce(actions, n, j, m)
  {
    if n > 0 {
      ProvidingIffKept(names, actions, n - 1, m);
      var a := actions[n - 1];
      AnnouncementAction(Reached(names, actions, n - 1), a, m);
      if Announces(a, m) {
        assert KeptAnnounce(actions, n, n - 1, m);
      } else if m in Reached(names, actions, n).providing {
        var j :| KeptAnnounce(actions, n - 1, j, m);
        assert KeptAnnounce(actions, n, j, m);
      }
      if j :| KeptAnnounce(actions, n, j, m) && j < n - 1 {
        assert KeptAnnounce(actions, n - 1, j, m) && !Withdraws(a, m);
      }
    }
  }

  /** Removal c listed the engine at l, with or without success, and is still under way. */
  ghost predicate ListedAt(actions: seq<Action>, n: nat, c: nat, e: string, l: int)
    requires n <= |actions|
  {
    && 0 <= l < n && actions[l].List? && actions[l].call == c && actions[l].engine == e
    && forall x :: l < x < n ==> !(actions[x].Drop? && actions[x].call == c)
  }

  lemma {:induction false} EngineWasListed(names: set<string>, actions: seq<Action>, n: nat, c: nat, e: string) returns (l: nat)
    requires n <= |actions| && Schedule(names, actions, n)
    requires var s := Reached(names, actions, n);
             c in s.removals && e in s.removals[c].pending
    ensures ListedAt(actions, n, c, e, l)
  {
    if n == 0 {
      assert false;
    }
    var a := actions[n - 1];
    if a.List? && a.call == c && a.engine == e {
      l := n - 1;
    } else {
      l := EngineWasListed(names, actions, n - 1, c, e);
    }
  }

  /** Removal c failed on the workload hosted at h, or listed its engine before it came. */
  ghost predicate Missed(actions: seq<Action>, n: nat, c: nat, e: string, id: string, h: int)
    requires n <= |actions|
  {
    exists l :: ListedAt(actions, n, c, e, l) && (!actions[l].ok || l < h || TakeFailed(actions, l, n, c, e, id))
  }

  ghost predicate TakeFailed(actions: seq<Action>, l: int, n: nat, c: nat, e: string, id: string)
    requires n <= |actions|
  {
    exists t :: 0 <= l < t < n && actions[t] == Take(c, e, id, false)
  }

  lemma {:induction false} StillMissed(actions: seq<Action>, n: nat, c: nat, e: string, id: string, h: int)
    requires 0 < n <= |actions| && Missed(actions, n - 1, c, e, id, h)
    requires !(actions[n - 1].Drop? && actions[n - 1].call == c)
    ensures Missed(actions, n, c, e, id, h)
  {
    var l :| ListedAt(actions, n - 1, c, e, l) && (!actions[l].ok || l < h || TakeFailed(actions, l, n - 1, c, e, id));
    assert ListedAt(actions, n, c, e, l);
    if t :| 0 <= l < t < n - 1 && actions[t] == Take(c, e, id, false) {
      assert TakeFailed(actions, l, n, c, e, id);
    }
  }

  /** Of a workload of its manifest, a removal that has listed the engine has it on its list or has missed it. */
  lemma {:induction false} PendingOrMissed(names: set<string>, actions: seq<Action>, n: nat, c: nat, e: string, id: string, h: nat)
    requires n <= |actions| && Schedule(names, actions, n) && Placed(actions, n, h, e, id)
    requires var s := Reached(names, actions, n);
             && c in s.removals && e in s.removals[c].pending
             && s.removals[c].manifest == actions[h].request.manifest
    ensures id in Reached(names, actions, n).removals[c].pending[e] || Missed(actions, n, c, e, id, h)
  {
    var a := actions[n - 1];
    var l := EngineWasListed(names, actions, n, c, e);
    if h < n - 1 && l < n - 1 {
      assert Placed(actions, n - 1, h, e, id);
      assert !(a.List? && a.call == c && a.engine == e) by {
        ListedOnce(names, actions, n, c, e, l);
      }
      PendingOrMissed(names, actions, n - 1, c, e, id, h);
      if Missed(actions, n - 1, c, e, id, h) {
        StillMissed(actions, n, c, e, id, h);
      } else if a == Take(c, e, id, false) {
        assert TakeFailed(actions, l, n, c, e, id);
      }
    } else if h < n - 1 {
      PlacedIsOccupied(names, actions, n - 1, h, e, id);
    }
  }

  /** A removal lists an engine once. */
  lemma {:induction false} ListedOnce(names: set<string>, actions: seq<Action>, n: nat, c: nat, e: string, l: nat)
    requires 0 < n <= |actions| && Schedule(names, actions, n) && l < n - 1 && ListedAt(actions, n, c, e, l)
    ensures !(actions[n - 1].List? && actions[n - 1].call == c && actions[n - 1].engine == e)
  {
    StaysListed(names, actions, n - 1, c, e, l);
  }

  lemma {:induction false} StaysListed(names: set<string>, actions: seq<Action>, n: nat, c: nat, e: string, l: nat)
    requires n <= |actions| && Schedule(names, actions, n) && ListedAt(actions, n, c, e, l)
    ensures var s := Reached(names, actions, n);
            c in s.removals && e in s.removals[c].pending
  {
    if l < n - 1 {
      StaysListed(names, actions, n - 1, c, e, l);
    }
    ListedStep(Reached(names, actions, n - 1), actions[n - 1], c, e);
  }

  lemma {:induction false} ListedStep(s: Shared, a: Action, c: nat, e: string)
    requires Enabled(s, a) && !(a.Drop? && a.call == c)
    requires (c in s.removals && e in s.removals[c].pending) || (a.List? && a.call == c && a.engine == e)
    ensures c in Exec(s, a).removals && e in Exec(s, a).removals[c].pending
  {
  }

  /** A removal that has come to its withdrawal has missed every workload of its manifest still there. */
  lemma {:induction false} WithdrawalMissed(names: set<string>, actions: seq<Action>, n: nat, e: string, id: string, m: string, h: nat, w: nat)
    requires n <= |actions| && Schedule(names, actions, n) && e in names
    requires Placed(actions, n, h, e, id) && actions[h].request.manifest == m
    requires h < w < n && Withdraws(actions[w], m)
    ensures Missed(actions, w, actions[w].call, e, id, h)
  {
    EnabledAt(names, actions, n, w);
    EnginesStay(names, actions, w);
    PendingOrMissed(names, actions, w, actions[w].call, e, id, h);
  }

  /** Withdrawal w, by a removal that missed the workload, was the last word on the announcement of m. */
  ghost predicate Hides(actions: seq<Action>, n: nat, e: string, id: string, m: string, h: int, w: int)
    requires n <= |actions|
  {
    && 0 <= h < w < n && Withdraws(actions[w], m) && Missed(actions, w, actions[w].call, e, id, h)
    && forall x :: w < x < n ==> !Announces(actions[x], m)
  }

  /** Nothing was announced or withdrawn since the workload was hosted, nor was m announced then. */
  ghost predicate NotYet(actions: seq<Action>, n: nat, m: string, h: int)
    requires n <= |actions|
  {
    && 0 <= h < n
    && (forall x :: h < x < n ==> !Announces(actions[x], m) && !Withdraws(actions[x], m))
    && !exists j :: KeptAnnounce(actions, h, j, m)
  }

  ghost predicate HiddenSince(actions: seq<Action>, n: nat, e: string, id: string, m: string, h: int)
    requires n <= |actions|
  {
    && Placed(actions, n, h, e, id) && actions[h].request.manifest == m
    && (NotYet(actions, n, m, h) || exists w :: Hides(actions, n, e, id, m, h, w))
  }

  predicate Unannounced(s: Shared, e: string, id: string, m: string) {
    Occupied(s, e, id) && s.engines[e][id].manifest == m && m !in s.providing
  }

  lemma {:induction false} LastWithdrawal(actions: seq<Action>, n: nat, m: string, w: nat) returns (j: nat)
    requires n <= |actions| && w < n && Withdraws(actions[w], m)
    ensures w <= j < n && Withdraws(actions[j], m) && forall x :: j < x < n ==> !Withdraws(actions[x], m)
    decreases n
  {
    if Withdraws(actions[n - 1], m) {
      j := n - 1;
    } else {
      j := LastWithdrawal(actions, n - 1, m, w);
    }
  }

  /**
   On every interleaving a hosted workload is not announced iff its apply has not come to that
   yet, or the last withdrawal of its manifest was by a removal that failed on the workload or
   had listed its engine before it was hosted.
   */
  lemma {:induction false} UnannouncedIffHidden(names: set<string>, actions: seq<Action>, n: nat, e: string, id: string, m: string)
    requires n <= |actions| && Schedule(names, actions, n)
    ensures Unannounced(Reached(names, actions, n), e, id, m) <==> exists h :: HiddenSince(actions, n, e, id, m, h)
  {
    ProvidingIffKept(names, actions, n, m);
    if Unannounced(Reached(names, actions, n), e, id, m) {
      var h := OccupiedIsPlaced(names, actions, n, e, id);
      PlacedIsOccupied(names, actions, n, h, e, id);
      EnginesStay(names, actions, n);
      NoneKept(actions, n, m, h);
      if w' :| h < w' < n && Withdraws(actions[w'], m) {
        var w := LastWithdrawal(actions, n, m, w');
        WithdrawalMissed(names, actions, n, e, id, m, h, w);
        NoneKeptAfter(actions, n, m, w);
        assert Hides(actions, n, e, id, m, h, w);
      }
      assert HiddenSince(actions, n, e, id, m, h);
    }
    if h :| HiddenSince(actions, n, e, id, m, h) {
      PlacedIsOccupied(names, actions, n, h, e, id);
      HiddenIsNotKept(actions, n, e, id, m, h);
    }
  }

  lemma {:induction false} NoneKeptAfter(actions: seq<Action>, n: nat, m: string, w: nat)
    requires w < n <= |actions| && !exists j :: KeptAnnounce(actions, n, j, m)
    requires forall x :: w < x < n ==> !Withdraws(actions[x], m)
    ensures forall x :: w < x < n ==> !Announces(actions[x], m)
  {
    forall x | w < x < n
      ensures !Announces(actions[x], m)
    {
      assert !KeptAnnounce(actions, n, x, m);
    }
  }

  lemma {:induction false} NoneKept(actions: seq<Action>, n: nat, m: string, h: nat)
    requires h < n <= |actions| && actions[h].Host? && !exists j :: KeptAnnounce(actions, n, j, m)
    ensures (forall x :: h < x < n ==> !Withdraws(actions[x], m)) ==> NotYet(actions, n, m, h)
  {
    if forall x :: h < x < n ==> !Withdraws(actions[x], m) {
      NoneKeptAfter(actions, n, m, h);
      if j :| KeptAnnounce(actions, h, j, m) {
        assert KeptAnnounce(actions, n, j, m);
      }
    }
  }

  lemma {:induction false} HiddenIsNotKept(actions: seq<Action>, n: nat, e: string, id: string, m: string, h: nat)
    requires n <= |actions| && HiddenSince(actions, n, e, id, m, h)
    ensures !exists j :: KeptAnnounce(actions, n, j, m)
  {
    forall j
      ensures !KeptAnnounce(actions, n, j, m)
    {
      if NotYet(actions, n, m, h) {
        assert !KeptAnnounce(actions, h, j, m);
      } else {
        var w :| Hides(actions, n, e, id, m, h, w);
      }
    }
  }

  /** The apply has hosted a workload of m and has yet to announce it. */
  predicate Due(s: Shared, c: nat, m: string) {
    c in s.hosted && s.hosted[c] == m && c !in s.applies
  }

  lemma {:induction false} DueStep(s: Shared, a: Action, c: nat, m: string)
    requires Enabled(s, a) && !Announces(a, m)
    requires Due(s, c, m) || (a.Host? && a.call == c && a.request.manifest == m)
    ensures Due(Exec(s, a), c, m)
  {
  }

  /** As long as nothing was announced since, the apply that hosted has yet to announce. */
  lemma {:induction false} AnnounceOutstanding(names: set<string>, actions: seq<Action>, n: nat, h: nat)
    requires h < n <= |actions| && Schedule(names, actions, n) && actions[h].Host?
    requires forall x :: h < x < n ==> !Announces(actions[x], actions[h].request.manifest)
    ensures Due(Reached(names, actions, n), actions[h].call, actions[h].request.manifest)
  {
    if h < n - 1 {
      AnnounceOutstanding(names, actions, n - 1, h);
    }
    DueStep(Reached(names, actions, n - 1), actions[n - 1], actions[h].call, actions[h].request.manifest);
  }

  /** Whoever announces has hosted before. */
  lemma {:induction false} AnnounceFollowsHost(names: set<string>, actions: seq<Action>, n: nat, c: nat) returns (h: nat)
    requires n <= |actions| && Schedule(names, actions, n) && c in Reached(names, actions, n).hosted
    ensures h < n && actions[h].Host? && actions[h].call == c
  {
    if n == 0 {
      assert false;
    }
    if actions[n - 1].Host? && actions[n - 1].call == c {
      h := n - 1;
    } else {
      h := AnnounceFollowsHost(names, actions, n - 1, c);
    }
  }

  /** Over all schedules of one apply and one removal: hidden for good iff hosted after the list and announced before the withdrawal. */
  lemma {:induction false} HiddenIffRaced(names: set<string>, actions: seq<Action>, e: string, id: string, m: string,
                                          r: nat, h: nat, a: nat, l: nat, w: nat, d: nat)
    requires Schedule(names, actions, |actions|) && OneOfEach(actions, e, id, m, r, h, l, d)
    requires a < |actions| && Announces(actions[a], m) && forall x :: 0 <= x < |actions| && actions[x].Announce? ==> x == a
    requires w < |actions| && Withdraws(actions[w], m) && forall x :: 0 <= x < |actions| && actions[x].Withdraw? ==> x == w
    ensures Unannounced(Reached(names, actions, |actions|), e, id, m) <==> l < h && a < w
  {
    var n := |actions|;
    EnabledAt(names, actions, n, a);
    var h' := AnnounceFollowsHost(names, actions, a, actions[a].call);
    assert h == h';
    UnannouncedIffHidden(names, actions, n, e, id, m);
    if k :| HiddenSince(actions, n, e, id, m, k) {
      assert k == h;
      assert !NotYet(actions, n, m, h);
      var v :| Hides(actions, n, e, id, m, h, v);
      assert v == w;
      var l' :| ListedAt(actions, w, actions[w].call, e, l') && (!actions[l'].ok || l' < h || TakeFailed(actions, l', w, actions[w].call, e, id));
      assert l' == l && !Fails(actions[l]);
    }
    if l < h && a < w {
      StaysPlaced(names, actions, e, id, m, r, h, l, d);
      EnabledAt(names, actions, n, h);
      EnginesStay(names, actions, h);
      WithdrawalMissed(names, actions, n, e, id, m, h, w);
      assert Hides(actions, n, e, id, m, h, w);
      assert HiddenSince(actions, n, e, id, m, h);
    }
  }

  // ---------- an owner of nothing ----------

  ghost predicate OwnedAndEmpty(s: Shared, m: string) {
    m in s.owners && forall e, id :: Occupied(s, e, id) ==> s.engines[e][id].manifest != m
  }

  /** The slot was filled again, taken or stopped since. */
  ghost predicate TouchedSince(actions: seq<Action>, n: nat, h: int, e: string, id: string)
    requires n <= |actions|
  {
    exists x :: 0 <= h < x < n && Touches(actions[x], e, id)
  }

  /** On every interleaving: an owner of nothing iff a record is kept and every slot that had a workload of m was touched since. */
  lemma {:induction false} EmptyIffTouched(names: set<string>, actions: seq<Action>, n: nat, m: string)
    requires n <= |actions| && Schedule(names, actions, n)
    ensures OwnedAndEmpty(Reached(names, actions, n), m) <==>
              && (exists j :: KeptRecord(actions, n, j, m))
              && (forall h, e, id :: 0 <= h < n && Fills(actions[h], e, id) && actions[h].request.manifest == m ==>
                    TouchedSince(actions, n, h, e, id))
  {
    OwnerIffKept(names, actions, n, m);
    var s := Reached(names, actions, n);
    if OwnedAndEmpty(s, m) {
      forall h, e, id | 0 <= h < n && Fills(actions[h], e, id) && actions[h].request.manifest == m
        ensures TouchedSince(actions, n, h, e, id)
      {
        if Placed(actions, n, h, e, id) {
          PlacedIsOccupied(names, actions, n, h, e, id);
        }
      }
    }
    forall e, id | Occupied(s, e, id) && s.engines[e][id].manifest == m
      ensures exists h :: 0 <= h < n && Fills(actions[h], e, id) && actions[h].request.manifest == m
                          && !TouchedSince(actions, n, h, e, id)
    {
      var h := OccupiedIsPlaced(names, actions, n, e, id);
      PlacedIsOccupied(names, actions, n, h, e, id);
    }
  }

  // ---------- both races happen ----------

  /** A removal between recording and hosting. */
  function RemovalBetween(q: Apply, e: string): seq<Action> {
    [Record(0, q), Begin(0, q.manifest), List(0, e, true), Withdraw(0, q.manifest), Drop(0, q.manifest, true), Host(0, q)]
  }

  /** A whole apply between the list and the drop. */
  function ApplyBetween(q: Apply, e: string): seq<Action> {
    [Begin(0, q.manifest), List(0, e, true), Record(0, q), Host(0, q), Announce(0, q.manifest),
     Withdraw(0, q.manifest), Drop(0, q.manifest, true)]
  }

  /** One more action of a schedule. */
  lemma {:induction false} Goes(names: set<string>, actions: seq<Action>, n: nat, s: Shared)
    requires n < |actions| && Schedule(names, actions, n) && Reached(names, actions, n) == s && Enabled(s, actions[n])
    ensures Schedule(names, actions, n + 1) && Reached(names, actions, n + 1) == Exec(s, actions[n])
  {
  }

  lemma {:induction false} RemovalBetweenRuns(q: Apply, e: string, id: string)
    requires q.decrypts && q.key != [] && q.placement == Some(Placement(e, id))
    ensures Schedule({e}, RemovalBetween(q, e), 6)
  {
    var actions := RemovalBetween(q, e);
    var s0 := Begun({e});
    Goes({e}, actions, 0, s0);
    var s1 := Exec(s0, actions[0]);
    Goes({e}, actions, 1, s1);
    var s2 := Exec(s1, actions[1]);
    Goes({e}, actions, 2, s2);
    var s3 := Exec(s2, actions[2]);
    Goes({e}, actions, 3, s3);
    var s4 := Exec(s3, actions[3]);
    Goes({e}, actions, 4, s4);
    Goes({e}, actions, 5, Exec(s4, actions[4]));
  }

  lemma {:induction false} RemovalBetweenHappens(q: Apply, e: string, id: string)
    requires q.decrypts && q.key != [] && q.placement == Some(Placement(e, id))
    ensures var actions := RemovalBetween(q, e);
            Schedule({e}, actions, 6) && Ownerless(Reached({e}, actions, 6), e, id, q.manifest)
  {
    RemovalBetweenRuns(q, e, id);
    LostIffRaced({e}, RemovalBetween(q, e), e, id, q.manifest, 0, 5, 2, 4);
  }

  lemma {:induction false} ApplyBetweenRuns(q: Apply, e: string, id: string)
    requires q.decrypts && q.key != [] && q.placement == Some(Placement(e, id))
    ensures Schedule({e}, ApplyBetween(q, e), 7)
  {
    var actions := ApplyBetween(q, e);
    var s0 := Begun({e});
    Goes({e}, actions, 0, s0);
    var s1 := Exec(s0, actions[0]);
    Goes({e}, actions, 1, s1);
    var s2 := Exec(s1, actions[1]);
    Goes({e}, actions, 2, s2);
    var s3 := Exec(s2, actions[2]);
    Goes({e}, actions, 3, s3);
    var s4 := Exec(s3, actions[3]);
    Goes({e}, actions, 4, s4);
    var s5 := Exec(s4, actions[4]);
    Goes({e}, actions, 5, s5);
    Goes({e}, actions, 6, Exec(s5, actions[5]));
  }

  /** It loses the owner, and hides the workload with no fault anywhere. */
  lemma {:induction false} ApplyBetweenHappens(q: Apply, e: string, id: string)
    requires q.decrypts && q.key != [] && q.placement == Some(Placement(e, id))
    ensures var actions := ApplyBetween(q, e);
            && Schedule({e}, actions, 7)
            && Ownerless(Reached({e}, actions, 7), e, id, q.manifest)
            && Unannounced(Reached({e}, actions, 7), e, id, q.manifest)
  {
    var actions := ApplyBetween(q, e);
    ApplyBetweenRuns(q, e, id);
    LostIffRaced({e}, actions, e, id, q.manifest, 2, 3, 1, 6);
    HiddenIffRaced({e}, actions, e, id, q.manifest, 2, 3, 4, 1, 5, 6);
  }

  /** A removal that cannot list the engine hides it too. */
  lemma {:induction false} FaultHides(q: Apply, e: string, id: string)
    requires q.decrypts && q.placement == Some(Placement(e, id))
    ensures var actions := [Record(0, q), Host(0, q), Announce(0, q.manifest),
                            Begin(0, q.manifest), List(0, e, false), Withdraw(0, q.manifest)];
            Schedule({e}, actions, 6) && Unannounced(Reached({e}, actions, 6), e, id, q.manifest)
  {
    var actions := [Record(0, q), Host(0, q), Announce(0, q.manifest),
                    Begin(0, q.manifest), List(0, e, false), Withdraw(0, q.manifest)];
    var s0 := Begun({e});
    Goes({e}, actions, 0, s0);
    var s1 := Exec(s0, actions[0]);
    Goes({e}, actions, 1, s1);
    var s2 := Exec(s1, actions[1]);
    Goes({e}, actions, 2, s2);
    var s3 := Exec(s2, actions[2]);
    Goes({e}, actions, 3, s3);
    var s4 := Exec(s3, actions[3]);
    Goes({e}, actions, 4, s4);
    Goes({e}, actions, 5, Exec(s4, actions[4]));
  }
}
