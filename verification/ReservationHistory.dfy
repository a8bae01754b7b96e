/**
 The manifest reservation test against the history of `reserve_capacity` calls
 (machineplane/machine/src/resource_verifier.rs:171-209, 251-281). The map of holds is
 pruned, refreshed and re-created on the way; what it answers is a fact about the history.
 */
module ReservationHistory {
  import opened Basics
  import opened Reservations

  /** How one event concerns one request id: was it an accepted reserve call, and naming what? */
  datatype Mark = Mark(at: nat, accepted: bool, manifest: Option<string>)

  ghost predicate AcceptedAsk(s: State, e: Event, id: string) {
    && e.op.Ask?
    && e.op.id == id
    && Reserve(s, e.at, id, e.op.manifest, e.op.request).1 == Accepted
  }

  ghost function MarkOf(s: State, e: Event, id: string): Mark {
    Mark(e.at, AcceptedAsk(s, e, id), if e.op.Ask? then e.op.manifest else None)
  }

  /** The history of one request id. */
  ghost function LogOf(events: seq<Event>, id: string): (log: seq<Mark>)
    ensures |log| == |events|
    ensures forall x :: 0 <= x < |log| ==> log[x].at == events[x].at
  {
    if events == [] then []
    else
      var n := |events| - 1;
      LogOf(events[..n], id) + [MarkOf(Run(events[..n]), events[n], id)]
  }

  ghost predicate InOrder(log: seq<Mark>) {
    forall i, j :: 0 <= i < j < |log| ==> log[i].at <= log[j].at
  }

  /**
   The manifest named by accepted call i is still the one named: later accepted calls
   for the id name none, and each came within the hold of an earlier one.
   */
  ghost predicate StillNamed(log: seq<Mark>, i: nat, m: string) {
    && i < |log|
    && log[i].accepted
    && log[i].manifest == Some(m)
    && forall x :: i < x < |log| && log[x].accepted ==> log[x].manifest == None && KeptAlive(log, i, x)
  }

  ghost predicate KeptAlive(log: seq<Mark>, i: nat, x: nat)
    requires x < |log|
  {
    exists y :: i <= y < x && log[y].accepted && log[x].at < log[y].at + 3_000_000_000
  }

  /** Some accepted call for the id lies less than the hold before t. */
  ghost predicate Recent(log: seq<Mark>, t: nat) {
    exists j :: 0 <= j < |log| && log[j].accepted && t < log[j].at + 3_000_000_000
  }

  // ---------- latest accepted call, as a fold ----------

  datatype Track = Track(last: nat, manifest: Option<string>)

  ghost function Tracked(log: seq<Mark>): (r: Option<Track>)
    ensures r.Some? ==> r.value.last < |log| && log[r.value.last].accepted
    ensures forall x :: 0 <= x < |log| && log[x].accepted ==> r.Some? && x <= r.value.last
  {
    if log == [] then None
    else
      var n := |log| - 1;
      var prev := Tracked(log[..n]);
      if !log[n].accepted then prev
      else if prev.Some? && log[n].at < log[prev.value.last].at + RESERVATION_HOLD && log[n].manifest.None? then
        Some(Track(n, prev.value.manifest))
      else
        Some(Track(n, log[n].manifest))
  }

  /** The hold in the map is the tracked one, and is there as long as it has not expired. */
  ghost predicate Reflects(holds: map<string, Hold>, log: seq<Mark>, id: string) {
    var tr := Tracked(log);
    && (id in holds ==>
          && tr.Some?
          && holds[id].manifest == tr.value.manifest
          && holds[id].expiresAt == log[tr.value.last].at + RESERVATION_HOLD)
    && (tr.Some? && log[tr.value.last].at + RESERVATION_HOLD > log[|log| - 1].at ==> id in holds)
  }

  lemma {:induction false} HoldIsTracked(events: seq<Event>, id: string)
    requires Monotone(events)
    ensures Reflects(Run(events).holds, LogOf(events, id), id)
  {
    if events == [] {
      NothingReflected(id);
    } else {
      var n := |events| - 1;
      HoldIsTracked(events[..n], id);
      StepReflects(Run(events[..n]), events[n], LogOf(events[..n], id), id);
    }
  }

  lemma {:induction false} NothingReflected(id: string)
    ensures Reflects(Initial().holds, [], id)
  {
  }

  lemma {:induction false} StepReflects(s: State, e: Event, log: seq<Mark>, id: string)
    requires Reflects(s.holds, log, id)
    requires log != [] ==> log[|log| - 1].at <= e.at
    ensures Reflects(Step(s, e).holds, log + [MarkOf(s, e, id)], id)
  {
    var log' := log + [MarkOf(s, e, id)];
    var holds' := Step(s, e).holds;
    assert log'[..|log|] == log;
    assert id in Live(s.holds, e.at) <==> id in s.holds && s.holds[id].expiresAt > e.at;
    if !AcceptedAsk(s, e, id) {
      assert Tracked(log') == Tracked(log);
      assert id in holds' ==> id in s.holds && holds'[id] == s.holds[id];
    }
  }

  lemma {:induction false} RecentIsTracked(log: seq<Mark>, t: nat)
    requires InOrder(log)
    ensures Recent(log, t) <==>
              Tracked(log).Some? && t < log[Tracked(log).value.last].at + RESERVATION_HOLD
  {
    var tr := Tracked(log);
    if Recent(log, t) {
      var j :| 0 <= j < |log| && log[j].accepted && t < log[j].at + RESERVATION_HOLD;
      assert j <= tr.value.last;
    }
  }

  lemma {:induction false} TrackedIsNamed(log: seq<Mark>, m: string) returns (i: nat)
    requires Tracked(log).Some? && Tracked(log).value.manifest == Some(m)
    ensures StillNamed(log, i, m)
  {
    var n := |log| - 1;
    var prev := Tracked(log[..n]);
    if log[n].accepted && log[n].manifest.Some? {
      i := n;
    } else {
      i := TrackedIsNamed(log[..n], m);
      forall x | i < x < |log| && log[x].accepted
        ensures log[x].manifest == None && KeptAlive(log, i, x)
      {
        if x < n {
          KeptAlivePrefix(log, n, i, x);
        } else {
          var y := prev.value.last;
          assert log[..n][i].accepted;
          assert i <= y < x && log[y].accepted && log[x].at < log[y].at + RESERVATION_HOLD;
        }
      }
    }
  }

  lemma {:induction false} KeptAlivePrefix(log: seq<Mark>, n: nat, i: nat, x: nat)
    requires x < n <= |log|
    ensures KeptAlive(log[..n], i, x) <==> KeptAlive(log, i, x)
  {
    if KeptAlive(log, i, x) {
      var y :| i <= y < x && log[y].accepted && log[x].at < log[y].at + RESERVATION_HOLD;
      assert log[..n][y].accepted;
    }
    if KeptAlive(log[..n], i, x) {
      var y :| i <= y < x && log[..n][y].accepted && log[..n][x].at < log[..n][y].at + RESERVATION_HOLD;
      assert log[y].accepted;
    }
  }

  lemma {:induction false} NamedIsTracked(log: seq<Mark>, i: nat, m: string)
    requires InOrder(log) && StillNamed(log, i, m)
    ensures Tracked(log).Some? && Tracked(log).value.manifest == Some(m)
  {
    var n := |log| - 1;
    if i < n {
      assert StillNamed(log[..n], i, m) by {
        forall x | i < x < n && log[..n][x].accepted
          ensures log[..n][x].manifest == None && KeptAlive(log[..n], i, x)
        {
          KeptAlivePrefix(log, n, i, x);
        }
      }
      assert InOrder(log[..n]);
      NamedIsTracked(log[..n], i, m);
      if log[n].accepted {
        LastKeepsAlive(log, n, i);
      }
    }
  }

  lemma {:induction false} LastKeepsAlive(log: seq<Mark>, n: nat, i: nat)
    requires n < |log| && InOrder(log) && KeptAlive(log, i, n)
    ensures Tracked(log[..n]).Some?
    ensures log[n].at < log[Tracked(log[..n]).value.last].at + RESERVATION_HOLD
  {
    var y :| i <= y < n && log[y].accepted && log[n].at < log[y].at + RESERVATION_HOLD;
    assert log[..n][y].accepted;
    var last := Tracked(log[..n]).value.last;
    assert y == last || log[y].at <= log[last].at;
  }

  /** The history of the id puts manifest m under reservation at time t. */
  ghost predicate ReservedFor(events: seq<Event>, id: string, t: nat, m: string) {
    exists i :: StillNamed(LogOf(events, id), i, m) && Recent(LogOf(events, id), t)
  }

  /** One request id: it holds m at time t iff its history says so. */
  lemma {:induction false} ManifestOfId(events: seq<Event>, id: string, t: nat, m: string)
    requires Monotone(events)
    requires events != [] ==> events[|events| - 1].at <= t
    ensures (id in Live(Run(events).holds, t) && Live(Run(events).holds, t)[id].manifest == Some(m)) <==>
              ReservedFor(events, id, t, m)
  {
    var log, holds := LogOf(events, id), Run(events).holds;
    HoldIsTracked(events, id);
    RecentIsTracked(log, t);
    assert id in Live(holds, t) <==> id in holds && holds[id].expiresAt > t;
    if id in Live(holds, t) && holds[id].manifest == Some(m) {
      var i := TrackedIsNamed(log, m);
      assert StillNamed(log, i, m) && Recent(log, t);
    }
    if i :| StillNamed(log, i, m) && Recent(log, t) {
      NamedIsTracked(log, i, m);
    }
  }

  /** The manifest test at time t, read off the history. */
  lemma {:induction false} ManifestTest(events: seq<Event>, t: nat, m: string)
    requires Monotone(events)
    requires events != [] ==> events[|events| - 1].at <= t
    ensures HoldsManifest(Live(Run(events).holds, t), m) <==> exists id :: ReservedFor(events, id, t, m)
  {
    var live := Live(Run(events).holds, t);
    if HoldsManifest(live, m) {
      var id :| id in live && live[id].manifest == Some(m);
      ManifestOfId(events, id, t, m);
    }
    if id :| ReservedFor(events, id, t, m) {
      ManifestOfId(events, id, t, m);
    }
  }

  /** What the apply gate gets out of a yes: an accepted call that named m, and a recent one for the same id. */
  lemma {:induction false} GateFollowsReserve(events: seq<Event>, t: nat, m: string) returns (id: string, named: nat, recent: nat)
    requires Monotone(events)
    requires events != [] ==> events[|events| - 1].at <= t
    requires HoldsManifest(Live(Run(events).holds, t), m)
    ensures named <= recent < |events|
    ensures AcceptedAsk(Run(events[..named]), events[named], id) && events[named].op.manifest == Some(m)
    ensures AcceptedAsk(Run(events[..recent]), events[recent], id) && t < events[recent].at + 3_000_000_000
  {
    ManifestTest(events, t, m);
    id :| ReservedFor(events, id, t, m);
    var log := LogOf(events, id);
    named :| StillNamed(log, named, m);
    RecentIsTracked(log, t);
    recent := Tracked(log).value.last;
    LogAt(events, id, named);
    LogAt(events, id, recent);
  }

  lemma {:induction false} LogAt(events: seq<Event>, id: string, x: nat)
    requires x < |events|
    ensures LogOf(events, id)[x] == MarkOf(Run(events[..x]), events[x], id)
  {
    var n := |events| - 1;
    if x < n {
      LogAt(events[..n], id, x);
      assert events[..n][..x] == events[..x];
    }
  }
}
