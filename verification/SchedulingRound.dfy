/**
 One bidding round of the Go scheduler (workplane/internal/machine/scheduler.go):
 collect proposals, upsert our own, sort, split the replicas, execute the split.
 The methods follow the source's loops; the functions say what they compute.
 */
module SchedulingRound {
  import opened Basics
  import opened Sums
  import opened StableOrder
  import opened LargestRemainder
  import opened Apportionment

  datatype Proposal = Proposal(taskId: string, nodeId: string, score: real, timestamp: int)

  // ---------- the proposal order ----------

  /** Go's `<` on strings. */
  predicate StringLess(a: string, b: string) {
    if b == [] then false
    else if a == [] then true
    else if a[0] != b[0] then a[0] < b[0]
    else StringLess(a[1..], b[1..])
  }

  lemma {:induction false} StringLessTotal(a: string, b: string)
    ensures a == b || StringLess(a, b) || StringLess(b, a)
    ensures !(StringLess(a, b) && StringLess(b, a))
    ensures !StringLess(a, a)
  {
    if a != [] && b != [] {
      StringLessTotal(a[1..], b[1..]);
      assert a == [a[0]] + a[1..] && b == [b[0]] + b[1..];
    }
    if a != [] && b == [] {
      StringLessTotal(a[1..], b);
    }
  }

  lemma {:induction false} StringLessTransitive(a: string, b: string, c: string)
    requires StringLess(a, b) && StringLess(b, c)
    ensures StringLess(a, c)
  {
    if a != [] && a[0] == b[0] == c[0] {
      StringLessTransitive(a[1..], b[1..], c[1..]);
    }
  }

  /** a and b agree before k, where a ends first or has the smaller character. */
  predicate DiffersAt(a: string, b: string, k: int) {
    && 0 <= k <= |a| && k < |b| && (forall i :: 0 <= i < k ==> a[i] == b[i])
    && (k == |a| || a[k] < b[k])
  }

  /** The order is decided at the first difference. */
  lemma {:induction false} StringLessIff(a: string, b: string)
    ensures StringLess(a, b) <==> exists k :: DiffersAt(a, b, k)
  {
    if a == [] || b == [] || a[0] != b[0] {
      if StringLess(a, b) {
        assert DiffersAt(a, b, 0);
      }
      forall k | DiffersAt(a, b, k)
        ensures k == 0
      {
      }
    } else {
      StringLessIff(a[1..], b[1..]);
      if k :| DiffersAt(a[1..], b[1..], k) {
        assert forall i :: 1 <= i < k + 1 ==> a[i] == a[1..][i - 1] && b[i] == b[1..][i - 1];
        assert DiffersAt(a, b, k + 1);
      }
      if k :| DiffersAt(a, b, k) {
        assert DiffersAt(a[1..], b[1..], k - 1);
      }
    }
  }

  /** The comparator: higher score, then older, then smaller node id. */
  predicate Ahead(p: Proposal, q: Proposal) {
    if p.score != q.score then p.score > q.score
    else if p.timestamp != q.timestamp then p.timestamp < q.timestamp
    else StringLess(p.nodeId, q.nodeId)
  }

  /** The comparator in the fields: a higher score, at equal scores an older bid, at equal times the smaller node id. */
  lemma {:induction false} AheadInFields(p: Proposal, q: Proposal)
    ensures Ahead(p, q) <==>
              || p.score > q.score
              || (p.score == q.score && p.timestamp < q.timestamp)
              || (p.score == q.score && p.timestamp == q.timestamp && StringLess(p.nodeId, q.nodeId))
  {
  }

  lemma {:induction false} AheadTotal(p: Proposal, q: Proposal)
    ensures Ahead(p, q) ==> !Ahead(q, p)
    ensures !Ahead(p, q) && !Ahead(q, p) ==>
              p.score == q.score && p.timestamp == q.timestamp && p.nodeId == q.nodeId
  {
    StringLessTotal(p.nodeId, q.nodeId);
  }

  lemma {:induction false} NotAheadTransitive(p: Proposal, q: Proposal, r: Proposal)
    requires !Ahead(q, p) && !Ahead(r, q)
    ensures !Ahead(r, p)
  {
    StringLessTotal(p.nodeId, q.nodeId);
    StringLessTotal(q.nodeId, r.nodeId);
    StringLessTotal(p.nodeId, r.nodeId);
    if StringLess(p.nodeId, q.nodeId) && StringLess(q.nodeId, r.nodeId) {
      StringLessTransitive(p.nodeId, q.nodeId, r.nodeId);
    }
  }

  ghost predicate Sorted(props: seq<Proposal>) {
    forall i, j :: 0 <= i < j < |props| ==> !Ahead(props[j], props[i])
  }

  function InsertSorted(props: seq<Proposal>, p: Proposal): (r: seq<Proposal>)
    requires Sorted(props)
    ensures Sorted(r) && multiset(r) == multiset(props) + multiset{p}
  {
    if props == [] then [p]
    else
      var n := |props| - 1;
      assert props == props[..n] + [props[n]];
      if !Ahead(p, props[n]) then
        assert forall i :: 0 <= i < n ==> !Ahead(p, props[i]) by {
          forall i | 0 <= i < n
            ensures !Ahead(p, props[i])
          {
            NotAheadTransitive(props[i], props[n], p);
          }
        }
        props + [p]
      else
        var front := InsertSorted(props[..n], p);
        assert forall x :: x in front ==> !Ahead(props[n], x) by {
          AheadTotal(p, props[n]);
          forall x | x in front
            ensures !Ahead(props[n], x)
          {
            assert x in multiset(front);
          }
        }
        front + [props[n]]
  }

  /** `sort.Slice` with the comparator; SortingIsDeterministic shows any correct sort gives this list. */
  function SortProposals(props: seq<Proposal>): (r: seq<Proposal>)
    ensures Sorted(r) && multiset(r) == multiset(props) && |r| == |props|
    ensures forall p :: p in r <==> p in props
  {
    if props == [] then []
    else
      var n := |props| - 1;
      assert props == props[..n] + [props[n]];
      var r := InsertSorted(SortProposals(props[..n]), props[n]);
      assert |multiset(r)| == |multiset(props)|;
      assert forall p :: p in r <==> p in multiset(r);
      assert forall p :: p in props <==> p in multiset(props);
      r
  }

  /** Within one TaskID the comparator determines the sorted list. */
  lemma {:induction false} SortingIsDeterministic(s: seq<Proposal>, t: seq<Proposal>, taskId: string)
    requires Sorted(s) && Sorted(t) && multiset(s) == multiset(t)
    requires forall p :: p in s ==> p.taskId == taskId
    ensures s == t
  {
    if s == [] {
      assert multiset(t) == multiset{};
    } else {
      var n := LastAgrees(s, t, taskId);
      SortingIsDeterministic(s[..n], t[..n], taskId);
    }
  }

  lemma {:induction false} LastAgrees(s: seq<Proposal>, t: seq<Proposal>, taskId: string) returns (n: nat)
    requires Sorted(s) && Sorted(t) && multiset(s) == multiset(t) && s != []
    requires forall p :: p in s ==> p.taskId == taskId
    ensures n + 1 == |s| == |t| && s[n] == t[n]
    ensures s == s[..n] + [s[n]] && t == t[..n] + [t[n]]
    ensures multiset(s[..n]) == multiset(t[..n])
  {
    n := |s| - 1;
    SameLength(s, t);
    SplitLast(s);
    SplitLast(t);
    LastIsSame(s, t, taskId);
  }

  lemma {:induction false} LastIsSame(s: seq<Proposal>, t: seq<Proposal>, taskId: string)
    requires Sorted(s) && Sorted(t) && multiset(s) == multiset(t) && s != [] && |s| == |t|
    requires forall p :: p in s ==> p.taskId == taskId
    ensures s[|s| - 1] == t[|t| - 1]
  {
    var p, q := s[|s| - 1], t[|t| - 1];
    assert p in multiset(s) && q in multiset(t);
    LastIsBehind(s, q);
    LastIsBehind(t, p);
    AheadTotal(p, q);
  }

  lemma {:induction false} SameLength(s: seq<Proposal>, t: seq<Proposal>)
    requires multiset(s) == multiset(t)
    ensures |s| == |t|
  {
    assert |multiset(s)| == |multiset(t)|;
  }

  lemma {:induction false} SplitLast(s: seq<Proposal>)
    requires s != []
    ensures s == s[..|s| - 1] + [s[|s| - 1]]
    ensures s[|s| - 1] in multiset(s)
    ensures multiset(s[..|s| - 1]) == multiset(s) - multiset{s[|s| - 1]}
  {
    var n := |s| - 1;
    assert s == s[..n] + [s[n]];
    assert multiset(s) == multiset(s[..n]) + multiset{s[n]};
  }

  lemma {:induction false} LastIsBehind(s: seq<Proposal>, p: Proposal)
    requires Sorted(s) && p in multiset(s)
    ensures s != [] && p in s && !Ahead(s[|s| - 1], p)
  {
    assert p in s;
    AheadTotal(p, p);
  }

  // ---------- replicas per node ----------

  function Scores(props: seq<Proposal>): (r: seq<real>)
    ensures |r| == |props|
  {
    seq(|props|, i requires 0 <= i < |props| => props[i].score)
  }

  /** Units of all entries that carry this node id. */
  function NodeTotal(props: seq<Proposal>, units: seq<int>, node: string): int
    requires |props| == |units|
  {
    if props == [] then 0
    else
      var n := |props| - 1;
      NodeTotal(props[..n], units[..n], node) + (if props[n].nodeId == node then units[n] else 0)
  }

  lemma {:induction false} NodeTotalUpdate(props: seq<Proposal>, units: seq<int>, i: nat, d: int, node: string)
    requires |props| == |units| && i < |units|
    ensures NodeTotal(props, units[i := units[i] + d], node)
         == NodeTotal(props, units, node) + (if props[i].nodeId == node then d else 0)
  {
    var n := |props| - 1;
    var u := units[i := units[i] + d];
    if i == n {
      assert u[..n] == units[..n];
    } else {
      assert u[..n] == units[..n][i := units[..n][i] + d];
      NodeTotalUpdate(props[..n], units[..n], i, d, node);
    }
  }

  lemma {:induction false} NodeTotalZero(props: seq<Proposal>, units: seq<int>, node: string)
    requires |props| == |units|
    requires forall i :: 0 <= i < |props| && props[i].nodeId == node ==> units[i] == 0
    ensures NodeTotal(props, units, node) == 0
  {
    if props != [] {
      var n := |props| - 1;
      NodeTotalZero(props[..n], units[..n], node);
    }
  }

  ghost predicate DistinctNodes(props: seq<Proposal>) {
    forall i, j :: 0 <= i < j < |props| ==> props[i].nodeId != props[j].nodeId
  }

  lemma {:induction false} NodeTotalOfDistinct(props: seq<Proposal>, units: seq<int>, i: nat)
    requires |props| == |units| && i < |props| && DistinctNodes(props)
    ensures NodeTotal(props, units, props[i].nodeId) == units[i]
  {
    var n := |props| - 1;
    if i < n {
      NodeTotalOfDistinct(props[..n], units[..n], i);
    } else {
      NodeTotalZero(props[..n], units[..n], props[n].nodeId);
    }
  }

  lemma {:induction false} NodeTotalNonNegative(props: seq<Proposal>, units: seq<nat>, node: string)
    requires |props| == |units|
    ensures NodeTotal(props, units, node) >= 0
  {
    if props != [] {
      var n := |props| - 1;
      NodeTotalNonNegative(props[..n], units[..n], node);
    }
  }

  function Lookup(m: map<string, int>, node: string): int {
    if node in m then m[node] else 0
  }

  /** A map that carries the per-entry units, summed by node, without zero entries. */
  ghost predicate Carries(assign: map<string, int>, props: seq<Proposal>, units: seq<int>)
    requires |props| == |units|
  {
    && (forall node :: Lookup(assign, node) == NodeTotal(props, units, node))
    && (forall node :: node in assign ==> assign[node] > 0)
  }

  function Total(total: int): nat {
    if total <= 0 then 0 else total
  }

  /** `assign[node] += d` for d > 0, seen through Carries. */
  lemma {:induction false} CarriesAfterAdd(assign: map<string, int>, props: seq<Proposal>, units: seq<int>, i: nat, d: int)
    requires |props| == |units| && i < |props| && d > 0
    requires Carries(assign, props, units)
    ensures Carries(assign[props[i].nodeId := Lookup(assign, props[i].nodeId) + d], props, units[i := units[i] + d])
  {
    var assign' := assign[props[i].nodeId := Lookup(assign, props[i].nodeId) + d];
    var units' := units[i := units[i] + d];
    forall node: string
      ensures Lookup(assign', node) == NodeTotal(props, units', node)
    {
      NodeTotalUpdate(props, units, i, d, node);
    }
    assert Lookup(assign, props[i].nodeId) >= 0;
  }

  lemma {:induction false} CarriesNothing(props: seq<Proposal>)
    ensures Carries(map[], props, Zeros(|props|))
  {
    forall node
      ensures NodeTotal(props, Zeros(|props|), node) == 0
    {
      NodeTotalZero(props, Zeros(|props|), node);
    }
  }

  lemma {:induction false} CarriesIsUnique(a: map<string, int>, b: map<string, int>, props: seq<Proposal>, units: seq<int>)
    requires |props| == |units|
    requires Carries(a, props, units) && Carries(b, props, units)
    ensures a == b
  {
    forall node: string
      ensures node in a <==> node in b
      ensures node in a ==> Lookup(a, node) == Lookup(b, node)
    {
      assert Lookup(a, node) == Lookup(b, node);
    }
    assert a.Keys == b.Keys;
    assert forall node :: node in a ==> a[node] == Lookup(a, node) && b[node] == Lookup(b, node);
  }

  // ---------- the methods ----------

  datatype Event = Heard(proposal: Proposal) | WindowElapsed | Cancelled

  /** The proposals under the TaskID heard before the window closes or the context is cancelled. */
  function Collected(events: seq<Event>, taskId: string): (r: seq<Proposal>)
    ensures forall p :: p in r ==> p.taskId == taskId
  {
    if events == [] || !events[0].Heard? then []
    else
      var rest := Collected(events[1..], taskId);
      if events[0].proposal.taskId == taskId then [events[0].proposal] + rest else rest
  }

  /** Collected is exactly what was heard under the TaskID with nothing but proposals before it. */
  lemma {:induction false} CollectedExactly(events: seq<Event>, taskId: string, p: Proposal)
    ensures p in Collected(events, taskId) <==>
              exists i :: 0 <= i < |events| && events[i] == Heard(p) && p.taskId == taskId
                          && forall j :: 0 <= j <= i ==> events[j].Heard?
  {
    if events != [] && events[0].Heard? {
      CollectedExactly(events[1..], taskId, p);
      var rest := events[1..];
      if i :| 0 <= i < |rest| && rest[i] == Heard(p) && p.taskId == taskId && forall j :: 0 <= j <= i ==> rest[j].Heard? {
        assert events[i + 1] == Heard(p) && forall j :: 0 <= j <= i + 1 ==> events[j].Heard?;
      }
      if i :| 0 < i < |events| && events[i] == Heard(p) && p.taskId == taskId && forall j :: 0 <= j <= i ==> events[j].Heard? {
        assert rest[i - 1] == Heard(p) && forall j :: 0 <= j <= i - 1 ==> rest[j].Heard?;
      }
    }
  }

  /** How many proposals come before the first event that is none. */
  ghost function Heeded(events: seq<Event>): (n: nat)
    ensures n <= |events| && forall j :: 0 <= j < n ==> events[j].Heard?
    ensures n < |events| ==> !events[n].Heard?
  {
    if events == [] || !events[0].Heard? then 0 else 1 + Heeded(events[1..])
  }

  /** `out` is what stands at the positions `at`, which rise and are exactly those of the TaskID among the first n. */
  ghost predicate TakenAt(events: seq<Event>, n: nat, taskId: string, at: seq<nat>, out: seq<Proposal>)
    requires n <= |events| && forall j :: 0 <= j < n ==> events[j].Heard?
  {
    && |at| == |out|
    && (forall j, k :: 0 <= j < k < |at| ==> at[j] < at[k])
    && (forall k :: 0 <= k < |at| ==> at[k] < n && events[at[k]].proposal == out[k] && out[k].taskId == taskId)
    && (forall i :: 0 <= i < n && events[i].proposal.taskId == taskId ==> i in at)
  }

  /** Nothing is dropped, repeated or reordered. */
  lemma {:induction false} CollectedInOrder(events: seq<Event>, taskId: string) returns (at: seq<nat>)
    ensures TakenAt(events, Heeded(events), taskId, at, Collected(events, taskId))
  {
    var n := Heeded(events);
    CollectedHeeded(events, taskId);
    at := PositionsTaken(events[..n], taskId);
    HeededAll(events[..n]);
    forall i | 0 <= i < n && events[i].proposal.taskId == taskId
      ensures i in at
    {
      assert events[..n][i] == events[i];
    }
  }

  lemma {:induction false} HeededAll(events: seq<Event>)
    requires forall j :: 0 <= j < |events| ==> events[j].Heard?
    ensures Heeded(events) == |events|
  {
  }

  lemma {:induction false} CollectedHeeded(events: seq<Event>, taskId: string)
    ensures Collected(events[..Heeded(events)], taskId) == Collected(events, taskId)
  {
    if events != [] && events[0].Heard? {
      CollectedHeeded(events[1..], taskId);
      var n := Heeded(events);
      assert events[..n][1..] == events[1..][..n - 1];
    }
  }

  lemma {:induction false} PositionsTaken(events: seq<Event>, taskId: string) returns (at: seq<nat>)
    requires forall j :: 0 <= j < |events| ==> events[j].Heard?
    ensures TakenAt(events, |events|, taskId, at, Collected(events, taskId))
  {
    if events == [] {
      at := [];
    } else {
      var n := |events| - 1;
      at := PositionsTaken(events[..n], taskId);
      CollectedFromTheBack(events, taskId);
      TakenOneMore(events, taskId, at, Collected(events[..n], taskId));
      if events[n].proposal.taskId == taskId {
        at := at + [n];
      }
    }
  }

  lemma {:induction false} TakenOneMore(events: seq<Event>, taskId: string, at: seq<nat>, out: seq<Proposal>)
    requires events != [] && forall j :: 0 <= j < |events| ==> events[j].Heard?
    requires TakenAt(events[..|events| - 1], |events| - 1, taskId, at, out)
    ensures var n := |events| - 1;
            if events[n].proposal.taskId == taskId
            then TakenAt(events, n + 1, taskId, at + [n], out + [events[n].proposal])
            else TakenAt(events, n + 1, taskId, at, out)
  {
    var n := |events| - 1;
    forall i | 0 <= i < n && events[i].proposal.taskId == taskId
      ensures i in at
    {
      assert events[..n][i] == events[i];
    }
  }

  lemma {:induction false} CollectedFromTheBack(events: seq<Event>, taskId: string)
    requires events != [] && forall j :: 0 <= j < |events| ==> events[j].Heard?
    ensures var n := |events| - 1;
            Collected(events, taskId) == Collected(events[..n], taskId)
                                         + (if events[n].proposal.taskId == taskId then [events[n].proposal] else [])
  {
    var n := |events| - 1;
    if n > 0 {
      CollectedFromTheBack(events[1..], taskId);
      assert events[..n][1..] == events[1..][..n - 1] && events[..n][0] == events[0];
    } else {
      assert events[1..] == [] && events[..0] == [];
    }
  }

  method Collect(events: seq<Event>, taskId: string) returns (out: seq<Proposal>)
    ensures out == Collected(events, taskId)
  {
    out := [];
    var i := 0;
    while i < |events|
      invariant 0 <= i <= |events|
      invariant out + Collected(events[i..], taskId) == Collected(events, taskId)
    {
      if events[i] == Cancelled || events[i] == WindowElapsed {
        return;
      }
      var p := events[i].proposal;
      assert events[i..][1..] == events[i + 1..];
      if p.taskId == taskId {
        out := out + [p];
      }
      i := i + 1;
    }
  }

  /** The list with the first entry of p's NodeID and TaskID replaced, or p added at the end. */
  predicate IsUpsert(list: seq<Proposal>, p: Proposal, r: seq<Proposal>) {
    if exists i :: 0 <= i < |list| && list[i].nodeId == p.nodeId && list[i].taskId == p.taskId then
      exists i :: 0 <= i < |list| && list[i].nodeId == p.nodeId && list[i].taskId == p.taskId
                  && (forall j :: 0 <= j < i ==> list[j].nodeId != p.nodeId || list[j].taskId != p.taskId)
                  && r == list[i := p]
    else
      r == list + [p]
  }

  method UpsertProposal(list: seq<Proposal>, p: Proposal) returns (r: seq<Proposal>)
    ensures IsUpsert(list, p, r)
    ensures forall i :: 0 <= i < |list| && list[i].nodeId == p.nodeId && list[i].taskId == p.taskId
                        && (forall j :: 0 <= j < i ==> list[j].nodeId != p.nodeId || list[j].taskId != p.taskId) ==>
              r == list[i := p]
    ensures (forall i :: 0 <= i < |list| ==> list[i].nodeId != p.nodeId || list[i].taskId != p.taskId) ==> r == list + [p]
    ensures p in r
    ensures forall q :: q in r ==> q in list || q == p
    ensures DistinctNodes(list) && (forall q :: q in list ==> q.taskId == p.taskId) ==> DistinctNodes(r)
  {
    r := list;
    for i := 0 to |list|
      invariant r == list
      invariant forall j :: 0 <= j < i ==> list[j].nodeId != p.nodeId || list[j].taskId != p.taskId
    {
      if list[i].nodeId == p.nodeId && list[i].taskId == p.taskId {
        r := list[i := p];
        assert r[i] == p;
        return;
      }
    }
    r := list + [p];
    assert r[|list|] == p;
  }

  datatype Frac = Frac(nodeId: string, frac: real)

  lemma {:induction false} EntryParts(total: nat, props: seq<Proposal>, i: nat, share: real)
    requires i < |props| && ScoreSum(Scores(props)) > 0.0
    requires share == Share(props[i].score, ScoreSum(Scores(props)), total)
    ensures Bases(Shares(total, Scores(props)))[i] == if Truncate(share) > 0 then Truncate(share) else 0
    ensures Remainders(Shares(total, Scores(props)))[i] == share - Truncate(share) as real
  {
    var shares := Shares(total, Scores(props));
    assert shares[i] == share;
    assert Bases(shares)[i] == Base(share);
    assert Remainders(shares)[i] == Remainder(share);
  }

  /** First pass: floors of the shares, and the remainders in list order. */
  method FloorPass(total: nat, props: seq<Proposal>, sum: real)
    returns (assign: map<string, int>, remaining: int, remainders: seq<Frac>)
    requires sum == ScoreSum(Scores(props)) > 0.0
    ensures Carries(assign, props, Bases(Shares(total, Scores(props))))
    ensures remaining == Leftover(total, Shares(total, Scores(props)))
    ensures |remainders| == |props|
    ensures forall i :: 0 <= i < |props| ==>
              remainders[i] == Frac(props[i].nodeId, Remainders(Shares(total, Scores(props)))[i])
  {
    ghost var bases, rem := Bases(Shares(total, Scores(props))), Remainders(Shares(total, Scores(props)));
    assign, remaining, remainders := map[], total, [];
    CarriesNothing(props);
    FirstAndLast(bases);
    for i := 0 to |props|
      invariant Carries(assign, props, FirstOf(bases, i))
      invariant remaining == total - SumInt(bases[..i])
      invariant |remainders| == i
      invariant forall k :: 0 <= k < i ==> remainders[k] == Frac(props[k].nodeId, rem[k])
    {
      var p := props[i];
      var share := Share(p.score, sum, total);
      var base := Truncate(share);
      EntryParts(total, props, i, share);
      FirstOfStep(bases, i);
      if base > 0 {
        CarriesAfterAdd(assign, props, FirstOf(bases, i), i, base);
        assign := assign[p.nodeId := Lookup(assign, p.nodeId) + base];
        remaining := remaining - base;
      }
      remainders := remainders + [Frac(p.nodeId, share - base as real)];
    }
  }

  /** The units of the first n entries, none for the others. */
  ghost function FirstOf(units: seq<nat>, n: nat): (r: seq<int>)
    ensures |r| == |units|
  {
    seq(|units|, k requires 0 <= k < |units| => if k < n then units[k] else 0)
  }

  lemma {:induction false} FirstAndLast(units: seq<nat>)
    ensures FirstOf(units, 0) == Zeros(|units|) && FirstOf(units, |units|) == units
    ensures units[..0] == [] && units[..|units|] == units
  {
  }

  lemma {:induction false} FirstOfStep(units: seq<nat>, i: nat)
    requires i < |units|
    ensures FirstOf(units, i)[i] == 0
    ensures FirstOf(units, i + 1) == FirstOf(units, i)[i := FirstOf(units, i)[i] + units[i]]
    ensures SumInt(units[..i + 1]) == SumInt(units[..i]) + units[i]
    ensures units[i] == 0 ==> FirstOf(units, i + 1) == FirstOf(units, i)
  {
    assert units[..i + 1][..i] == units[..i];
  }

  /**
   `assignReplicas`: the map carries exactly Units, and the outer leftover loop
   runs at most once.
   */
  method AssignReplicas(total: int, props: seq<Proposal>) returns (assign: map<string, int>, ghost passes: nat)
    ensures Carries(assign, props, Units(Total(total), Scores(props)))
    ensures total <= 0 ==> assign == map[]
    ensures total >= 1 ==> Carries(assign, props, Units(total, Scores(props)))
    ensures passes <= 1
  {
    assign, passes := map[], 0;
    if total <= 0 {
      NothingToAssign(Scores(props));
      CarriesNothing(props);
      return;
    }
    var sum := SumPositive(props);
    if sum <= 0.0 {
      assign := OneEach(total, props);
      return;
    }
    var remaining, remainders;
    assign, remaining, remainders := FloorPass(total, props, sum);
    ghost var shares := Shares(total, Scores(props));
    SharesAreProportional(total, Scores(props));
    LeftoverFits(total, shares);
    // sort.SliceStable by falling remainder
    var fracs := seq(|remainders|, i requires 0 <= i < |remainders| => remainders[i].frac);
    assert fracs == Remainders(shares);
    var order := StableOrder.StableOrder(Negated(fracs));
    var sorted := seq(|order|, k requires 0 <= k < |order| => remainders[order[k]]);
    assign, passes := DistributeLeftovers(props, Bases(shares), order, assign, remaining, sorted);
  }

  /** One more for each entry of the sorted remainders, in as many passes as it takes. */
  method DistributeLeftovers(ghost props: seq<Proposal>, ghost bases: seq<nat>, ghost order: seq<nat>,
                             start: map<string, int>, leftover: nat, sorted: seq<Frac>)
    returns (assign: map<string, int>, ghost passes: nat)
    requires |bases| == |props| && InRange(order, |props|)
    requires leftover <= |sorted| == |order|
    requires forall k :: 0 <= k < |sorted| ==> sorted[k].nodeId == props[order[k]].nodeId
    requires Carries(start, props, bases)
    ensures Carries(assign, props, Bump(bases, order[..leftover]))
    ensures passes <= 1
  {
    var remaining := leftover;
    assign, passes := start, 0;
    while remaining > 0
      invariant 0 <= remaining <= leftover
      invariant passes == 0 ==> remaining == leftover
      invariant passes <= 1 && (passes == 1 ==> remaining == 0)
      invariant Carries(assign, props, Bump(bases, order[..leftover - remaining]))
    {
      for k := 0 to |sorted|
        invariant 0 <= remaining <= leftover
        invariant leftover - remaining == Min(k, leftover)
        invariant Carries(assign, props, Bump(bases, order[..leftover - remaining]))
      {
        if remaining == 0 {
          break;
        }
        assign := AddOne(props, bases, order, assign, k, sorted[k].nodeId);
        remaining := remaining - 1;
      }
      passes := passes + 1;
    }
  }

  /** assign[node]++ for the entry at position order[k]. */
  method AddOne(ghost props: seq<Proposal>, ghost bases: seq<nat>, ghost order: seq<nat>,
                assign: map<string, int>, ghost k: nat, node: string)
    returns (r: map<string, int>)
    requires |bases| == |props| && InRange(order, |props|)
    requires k < |order| && node == props[order[k]].nodeId
    requires Carries(assign, props, Bump(bases, order[..k]))
    ensures Carries(r, props, Bump(bases, order[..k + 1]))
  {
    assert order[..k + 1][..k] == order[..k];
    CarriesAfterAdd(assign, props, Bump(bases, order[..k]), order[k], 1);
    r := assign[node := Lookup(assign, node) + 1];
  }

  lemma {:induction false} NothingToAssign(scores: seq<real>)
    ensures Units(0, scores) == Zeros(|scores|)
  {
    if ScoreSum(scores) > 0.0 {
      SharesAreProportional(0, scores);
      var bases := Bases(Shares(0, scores));
      forall i | 0 <= i < |scores|
        ensures bases[i] == 0
      {
        ShareAsProduct(scores[i], ScoreSum(scores), 0);
      }
      SumIntZero(bases);
      assert Units(0, scores) == bases;
    }
  }

  method SumPositive(props: seq<Proposal>) returns (sum: real)
    ensures sum == ScoreSum(Scores(props))
  {
    ghost var parts := PositiveParts(Scores(props));
    sum := 0.0;
    for i := 0 to |props|
      invariant sum == SumReal(parts[..i])
    {
      assert parts[..i + 1][..i] == parts[..i];
      assert parts[i] == Positive(props[i].score);
      if props[i].score > 0.0 {
        sum := sum + props[i].score;
      }
    }
    assert parts[..|props|] == parts;
  }

  /** No meaningful scores: one each from the top until they run out. */
  method OneEach(total: nat, props: seq<Proposal>) returns (assign: map<string, int>)
    requires ScoreSum(Scores(props)) <= 0.0
    ensures Carries(assign, props, Units(total, Scores(props)))
  {
    ghost var zeros := Zeros(|props|);
    assign := map[];
    CarriesNothing(props);
    var i := 0;
    while i < total && i < |props|
      invariant 0 <= i <= Min(total, |props|)
      invariant Carries(assign, props, Bump(zeros, Upto(i)))
    {
      OneMoreEach(assign, props, i);
      assign := assign[props[i].nodeId := Lookup(assign, props[i].nodeId) + 1];
      i := i + 1;
    }
  }

  lemma {:induction false} OneMoreEach(assign: map<string, int>, props: seq<Proposal>, i: nat)
    requires i < |props| && Carries(assign, props, Bump(Zeros(|props|), Upto(i)))
    ensures Carries(assign[props[i].nodeId := Lookup(assign, props[i].nodeId) + 1], props, Bump(Zeros(|props|), Upto(i + 1)))
  {
    assert Upto(i + 1)[..i] == Upto(i) && Upto(i + 1)[i] == i;
    CarriesAfterAdd(assign, props, Bump(Zeros(|props|), Upto(i)), i, 1);
  }

  // ---------- the whole round ----------

  datatype Task = Task(taskId: string, replicas: int)

  datatype Call = DeployLocal | Delegate(nodeId: string)

  function Target(call: Call, self: string): string {
    if call.DeployLocal? then self else call.nodeId
  }

  function CallsTo(calls: seq<Call>, self: string, node: string): nat {
    if calls == [] then 0
    else
      var n := |calls| - 1;
      CallsTo(calls[..n], self, node) + (if Target(calls[n], self) == node then 1 else 0)
  }

  /** Replicas a node is awarded by the bids, whatever order they came in. */
  function Award(total: nat, bids: seq<Proposal>, node: string): int {
    var sorted := SortProposals(bids);
    NodeTotal(sorted, Units(total, Scores(sorted)), node)
  }

  /** Visit the assignments in an arbitrary order, as Go ranges over a map. */
  method Execute(self: string, assign: map<string, int>) returns (calls: seq<Call>)
    ensures forall node :: CallsTo(calls, self, node) == if Lookup(assign, node) > 0 then Lookup(assign, node) else 0
    ensures Delegate(self) !in calls
  {
    calls := [];
    var todo := assign.Keys;
    while todo != {}
      invariant todo <= assign.Keys
      invariant forall node :: CallsTo(calls, self, node)
                  == if node !in todo && Lookup(assign, node) > 0 then Lookup(assign, node) else 0
      invariant Delegate(self) !in calls
      decreases todo
    {
      var node :| node in todo;
      var count := assign[node];
      if count > 0 {
        calls := Repeat(self, calls, if node == self then DeployLocal else Delegate(node), count);
      }
      todo := todo - {node};
    }
  }

  /** Issue the same call `count` times. */
  method Repeat(ghost self: string, calls: seq<Call>, call: Call, count: nat) returns (r: seq<Call>)
    ensures forall node :: CallsTo(r, self, node)
              == CallsTo(calls, self, node) + (if node == Target(call, self) then count else 0)
    ensures forall c :: c in r ==> c in calls || c == call
  {
    r := calls;
    for i := 0 to count
      invariant forall node :: CallsTo(r, self, node)
                  == CallsTo(calls, self, node) + (if node == Target(call, self) then i else 0)
      invariant forall c :: c in r ==> c in calls || c == call
    {
      var before := r;
      r := r + [call];
      assert r[..|r| - 1] == before;
    }
  }

  /** If every node is called as often as its entries say, there are as many calls as units. */
  lemma {:induction false} CallsMatchUnits(calls: seq<Call>, self: string, props: seq<Proposal>, units: seq<nat>)
    requires |props| == |units|
    requires forall node :: CallsTo(calls, self, node) == NodeTotal(props, units, node)
    ensures |calls| == SumInt(units)
  {
    if calls == [] {
      forall i | 0 <= i < |units|
        ensures units[i] == 0
      {
        assert NodeTotal(props, units, props[i].nodeId) == CallsTo(calls, self, props[i].nodeId);
        EntryBelowTotal(props, units, i);
      }
      SumIntZero(units);
    } else {
      var n := |calls| - 1;
      var node := Target(calls[n], self);
      assert NodeTotal(props, units, node) == CallsTo(calls, self, node) > 0;
      var i := SomeEntry(props, units, node);
      var less: seq<nat> := units[i := units[i] - 1];
      assert less == units[i := units[i] + (-1)];
      forall other: string
        ensures CallsTo(calls[..n], self, other) == NodeTotal(props, less, other)
      {
        NodeTotalUpdate(props, units, i, -1, other);
        assert CallsTo(calls, self, other) == NodeTotal(props, units, other);
      }
      CallsMatchUnits(calls[..n], self, props, less);
      SumIntUpdate(units, i, -1);
    }
  }

  lemma {:induction false} EntryBelowTotal(props: seq<Proposal>, units: seq<nat>, i: nat)
    requires |props| == |units| && i < |props|
    ensures units[i] <= NodeTotal(props, units, props[i].nodeId)
  {
    var n := |props| - 1;
    if i < n {
      EntryBelowTotal(props[..n], units[..n], i);
    } else {
      NodeTotalNonNegative(props[..n], units[..n], props[n].nodeId);
    }
  }

  lemma {:induction false} SomeEntry(props: seq<Proposal>, units: seq<nat>, node: string) returns (i: nat)
    requires |props| == |units| && NodeTotal(props, units, node) > 0
    ensures i < |props| && props[i].nodeId == node && units[i] > 0
  {
    var n := |props| - 1;
    if props[n].nodeId == node && units[n] > 0 {
      i := n;
    } else {
      i := SomeEntry(props[..n], units[..n], node);
    }
  }

  ghost predicate SomePositiveBid(bids: seq<Proposal>) {
    exists p :: p in bids && p.score > 0.0
  }

  lemma {:induction false} SortKeepsPositive(bids: seq<Proposal>)
    ensures SomePositive(Scores(SortProposals(bids))) <==> SomePositiveBid(bids)
  {
    var sorted := SortProposals(bids);
    if SomePositive(Scores(sorted)) {
      var i :| 0 <= i < |sorted| && Scores(sorted)[i] > 0.0;
      assert sorted[i] in bids;
    }
    if SomePositiveBid(bids) {
      var p :| p in bids && p.score > 0.0;
      var i := EntryOf(bids, p);
      assert Scores(sorted)[i] > 0.0;
    }
  }

  /**
   `DistributedSchedule`. `bids` is the list after the upsert; it always holds our own
   proposal, so the deploy-locally branch for an empty list is never taken.
   */
  method DistributedSchedule(self: string, task: Task, selfScore: real, now: int, events: seq<Event>)
    returns (calls: seq<Call>, ghost bids: seq<Proposal>)
    ensures IsUpsert(Collected(events, task.taskId), Proposal(task.taskId, self, selfScore, now), bids)
    ensures forall p :: p in bids ==> p.taskId == task.taskId
    ensures bids != []
    ensures forall node :: CallsTo(calls, self, node) == Award(AtLeastOne(task.replicas), bids, node)
    ensures |calls| == if SomePositiveBid(bids) then AtLeastOne(task.replicas)
                       else Min(AtLeastOne(task.replicas), |bids|)
    ensures (exists p :: p in bids && p.score > 0.0) ==> |calls| == if task.replicas >= 1 then task.replicas else 1
    ensures (forall p :: p in bids ==> p.score <= 0.0) && task.replicas >= 1 ==>
              |calls| == if task.replicas <= |bids| then task.replicas else |bids|
    ensures (forall p :: p in bids ==> p.score <= 0.0) && task.replicas <= 0 ==> |calls| == 1
    ensures Delegate(self) !in calls
    ensures multiset(calls)[DeployLocal] == Award(if task.replicas >= 1 then task.replicas else 1, bids, self)
    ensures forall node :: node != self ==>
              multiset(calls)[Delegate(node)] == Award(if task.replicas >= 1 then task.replicas else 1, bids, node)
  {
    var replicas := if task.replicas <= 0 then 1 else task.replicas;
    var selfProp := Proposal(task.taskId, self, selfScore, now);
    var props := Collect(events, task.taskId);
    props := UpsertProposal(props, selfProp);
    bids := props;
    props := SortProposals(props);
    var assignments, _ := AssignReplicas(replicas, props);
    calls := Execute(self, assignments);
    RoundCounts(replicas, bids, assignments, self, calls);
    CallsAreCounted(calls, self);
  }

  /** Calls to our own id are local deployments, calls to any other are delegations to it. */
  lemma {:induction false} CallsAreCounted(calls: seq<Call>, self: string)
    requires Delegate(self) !in calls
    ensures CallsTo(calls, self, self) == multiset(calls)[DeployLocal]
    ensures forall node :: node != self ==> CallsTo(calls, self, node) == multiset(calls)[Delegate(node)]
  {
    if calls != [] {
      var n := |calls| - 1;
      CallsAreCounted(calls[..n], self);
      assert calls == calls[..n] + [calls[n]];
    }
  }

  lemma {:induction false} RoundCounts(replicas: nat, bids: seq<Proposal>, assign: map<string, int>, self: string, calls: seq<Call>)
    requires Carries(assign, SortProposals(bids), Units(replicas, Scores(SortProposals(bids))))
    requires forall node :: CallsTo(calls, self, node) == if Lookup(assign, node) > 0 then Lookup(assign, node) else 0
    ensures forall node :: CallsTo(calls, self, node) == Award(replicas, bids, node)
    ensures |calls| == if SomePositiveBid(bids) then replicas else Min(replicas, |bids|)
  {
    var props := SortProposals(bids);
    var units := Units(replicas, Scores(props));
    forall node: string
      ensures CallsTo(calls, self, node) == NodeTotal(props, units, node)
    {
      NodeTotalNonNegative(props, units, node);
    }
    CallsMatchUnits(calls, self, props, units);
    Conservation(replicas, Scores(props));
    SortKeepsPositive(bids);
  }

  // ---------- what a node can rely on ----------

  /** Agreement: schedulers that heard the same bids, in any order, build the same assignment map. */
  lemma {:induction false} Agreement(total: int, bids1: seq<Proposal>, bids2: seq<Proposal>, taskId: string,
                  assign1: map<string, int>, assign2: map<string, int>)
    requires multiset(bids1) == multiset(bids2)
    requires forall p :: p in bids1 ==> p.taskId == taskId
    requires Carries(assign1, SortProposals(bids1), Units(Total(total), Scores(SortProposals(bids1))))
    requires Carries(assign2, SortProposals(bids2), Units(Total(total), Scores(SortProposals(bids2))))
    ensures assign1 == assign2
    ensures forall node :: Award(Total(total), bids1, node) == Award(Total(total), bids2, node)
  {
    var s := SortProposals(bids1);
    SortingIsDeterministic(s, SortProposals(bids2), taskId);
    CarriesIsUnique(assign1, assign2, s, Units(Total(total), Scores(s)));
  }

  lemma {:induction false} DistinctOnce(s: seq<Proposal>, x: Proposal)
    requires DistinctNodes(s)
    ensures multiset(s)[x] <= 1
  {
    if s != [] {
      SplitLast(s);
      DistinctOnce(s[..|s| - 1], x);
      if x == s[|s| - 1] {
        assert x !in s[..|s| - 1];
      }
    }
  }

  lemma {:induction false} DistinctAfterSort(s: seq<Proposal>, t: seq<Proposal>)
    requires DistinctNodes(s) && multiset(s) == multiset(t)
    ensures DistinctNodes(t)
  {
    forall i, j | 0 <= i < j < |t|
      ensures t[i].nodeId != t[j].nodeId
    {
      DistinctOnce(s, t[i]);
      assert t[i] in multiset(s) && t[j] in multiset(s);
      assert t == t[..j] + t[j..];
      assert t[i] in t[..j] && t[j] in t[j..];
      assert multiset(t) == multiset(t[..j]) + multiset(t[j..]);
      assert t[i] != t[j];
    }
  }

  lemma {:induction false} SortedScoresFall(bids: seq<Proposal>)
    ensures Falling(Scores(SortProposals(bids)))
  {
  }

  /** With one bid per node, a node's award is the units of its entry. */
  lemma {:induction false} AwardOfEntry(total: nat, bids: seq<Proposal>, i: nat)
    requires DistinctNodes(bids) && i < |bids|
    ensures Award(total, bids, SortProposals(bids)[i].nodeId)
         == Units(total, Scores(SortProposals(bids)))[i]
  {
    var s := SortProposals(bids);
    DistinctAfterSort(bids, s);
    NodeTotalOfDistinct(s, Units(total, Scores(s)), i);
  }

  lemma {:induction false} EntryOf(bids: seq<Proposal>, p: Proposal) returns (i: nat)
    requires p in bids
    ensures i < |bids| && SortProposals(bids)[i] == p
  {
    i :| 0 <= i < |bids| && SortProposals(bids)[i] == p;
  }

  lemma {:induction false} SumAfterInsert(props: seq<Proposal>, p: Proposal)
    requires Sorted(props)
    ensures ScoreSum(Scores(InsertSorted(props, p))) == ScoreSum(Scores(props)) + (if p.score > 0.0 then p.score else 0.0)
  {
    if props == [] {
      assert Scores(InsertSorted([], p)) == [] + [p.score] && Scores([]) == [];
      ScoreSumInScores([], p.score);
    } else {
      var n := |props| - 1;
      assert Scores(props) == Scores(props[..n]) + [props[n].score];
      ScoreSumInScores(Scores(props[..n]), props[n].score);
      if !Ahead(p, props[n]) {
        assert Scores(props + [p]) == Scores(props) + [p.score];
        ScoreSumInScores(Scores(props), p.score);
      } else {
        var front := InsertSorted(props[..n], p);
        SumAfterInsert(props[..n], p);
        assert Scores(front + [props[n]]) == Scores(front) + [props[n].score];
        ScoreSumInScores(Scores(front), props[n].score);
      }
    }
  }

  lemma {:induction false} ScoresStep(bids: seq<Proposal>)
    requires bids != []
    ensures var n := |bids| - 1;
            ScoreSum(Scores(bids)) == ScoreSum(Scores(bids[..n])) + (if bids[n].score > 0.0 then bids[n].score else 0.0)
  {
    var n := |bids| - 1;
    assert Scores(bids) == Scores(bids[..n]) + [bids[n].score];
    ScoreSumInScores(Scores(bids[..n]), bids[n].score);
  }

  lemma {:induction false} SortStep(bids: seq<Proposal>)
    ensures bids == [] ==> SortProposals(bids) == []
    ensures bids != [] ==> SortProposals(bids) == InsertSorted(SortProposals(bids[..|bids| - 1]), bids[|bids| - 1])
  {
  }

  /** Sorting does not change the sum. */
  lemma {:induction false} SumAfterSort(bids: seq<Proposal>)
    ensures ScoreSum(Scores(SortProposals(bids))) == ScoreSum(Scores(bids))
  {
    SortStep(bids);
    if bids != [] {
      var n := |bids| - 1;
      SumAfterSort(bids[..n]);
      SumAfterInsert(SortProposals(bids[..n]), bids[n]);
      ScoresStep(bids);
    }
  }

  /** Quota rule per node: floor or ceiling of the exact share, nothing without a positive score. */
  lemma {:induction false} NodeQuota(total: nat, bids: seq<Proposal>, p: Proposal)
    requires DistinctNodes(bids) && p in bids && SomePositiveBid(bids)
    ensures var sum := ScoreSum(Scores(bids));
            && sum > 0.0
            && var q := Share(if p.score > 0.0 then p.score else 0.0, sum, total);
               var a := Award(total, bids, p.nodeId);
               && (a == q.Floor || (a == q.Floor + 1 && q > q.Floor as real))
               && (p.score <= 0.0 ==> a == 0)
  {
    var i := EntryOf(bids, p);
    SortKeepsPositive(bids);
    SumAfterSort(bids);
    AwardOfEntry(total, bids, i);
    QuotaRule(total, Scores(SortProposals(bids)), i);
  }

  /** Where a bid stands in the sorted list, compared with another. */
  lemma {:induction false} AheadComesFirst(bids: seq<Proposal>, p: Proposal, q: Proposal) returns (i: nat, j: nat)
    requires p in bids && q in bids
    ensures i < |bids| && j < |bids| && SortProposals(bids)[i] == p && SortProposals(bids)[j] == q
    ensures (|| p.score > q.score
             || (p.score == q.score && p.timestamp < q.timestamp)
             || (p.score == q.score && p.timestamp == q.timestamp && StringLess(p.nodeId, q.nodeId))) ==> i < j
  {
    i := EntryOf(bids, p);
    j := EntryOf(bids, q);
    AheadInFields(p, q);
    if Ahead(p, q) {
      SortedPositions(SortProposals(bids), i, j);
    }
  }

  lemma {:induction false} SortedPositions(s: seq<Proposal>, i: nat, j: nat)
    requires Sorted(s) && i < |s| && j < |s| && Ahead(s[i], s[j])
    ensures i < j
  {
    AheadTotal(s[i], s[j]);
  }

  /** Of two bids with a positive score, the larger fraction of an exact share is rounded up first; ties go to the bid ahead. */
  lemma {:induction false} LargerFractionFirst(total: nat, bids: seq<Proposal>, p: Proposal, q: Proposal, share: real, share': real)
    requires DistinctNodes(bids) && p in bids && q in bids && p.score > 0.0 && q.score > 0.0 && ScoreSum(Scores(bids)) > 0.0
    requires share == Share(p.score, ScoreSum(Scores(bids)), total) && share' == Share(q.score, ScoreSum(Scores(bids)), total)
    requires || Fraction(share) > Fraction(share')
             || (Fraction(share) == Fraction(share')
                 && (|| p.score > q.score
                     || (p.score == q.score && p.timestamp < q.timestamp)
                     || (p.score == q.score && p.timestamp == q.timestamp && StringLess(p.nodeId, q.nodeId))))
    ensures Award(total, bids, q.nodeId) == share'.Floor + 1 ==> Award(total, bids, p.nodeId) == share.Floor + 1
  {
    var i, j := AheadComesFirst(bids, p, q);
    SumAfterSort(bids);
    AwardOfEntry(total, bids, i);
    AwardOfEntry(total, bids, j);
    UnitsPriority(total, Scores(SortProposals(bids)), i, j, share, share');
  }

  /** A higher score, at equal scores an older bid, and at equal times the smaller node id is awarded no fewer. */
  lemma {:induction false} HigherScoreNeverFewer(total: nat, bids: seq<Proposal>, p: Proposal, q: Proposal)
    requires DistinctNodes(bids) && p in bids && q in bids
    requires || p.score > q.score
             || (p.score == q.score && p.timestamp < q.timestamp)
             || (p.score == q.score && p.timestamp == q.timestamp && StringLess(p.nodeId, q.nodeId))
    ensures Award(total, bids, p.nodeId) >= Award(total, bids, q.nodeId)
  {
    var i := EntryOf(bids, p);
    var j := EntryOf(bids, q);
    AheadTotal(p, q);
    AwardOfEntry(total, bids, i);
    AwardOfEntry(total, bids, j);
    SortedScoresFall(bids);
    assert Ahead(p, q) && i != j;
    if i < j {
      Monotone(total, Scores(SortProposals(bids)), i, j);
    }
  }

  /** The bid with the highest score, the oldest of these, and of these the one with the smallest node id, is served. */
  lemma {:induction false} BestBidServed(total: nat, bids: seq<Proposal>, p: Proposal)
    requires total >= 1 && DistinctNodes(bids) && p in bids
    requires forall q :: q in bids && q != p ==>
               || p.score > q.score
               || (p.score == q.score && p.timestamp < q.timestamp)
               || (p.score == q.score && p.timestamp == q.timestamp && StringLess(p.nodeId, q.nodeId))
    ensures Award(total, bids, p.nodeId) >= 1
  {
    var s := SortProposals(bids);
    AwardOfEntry(total, bids, 0);
    SortedScoresFall(bids);
    TopIsServed(total, Scores(s));
    assert s[0] in bids;
    if s[0] != p {
      HigherScoreNeverFewer(total, bids, p, s[0]);
    }
  }

  /** What each bid's node is awarded, in sorted order. */
  function Awards(total: nat, bids: seq<Proposal>): (r: seq<int>)
    ensures |r| == |bids|
  {
    seq(|bids|, i requires 0 <= i < |bids| => Award(total, bids, SortProposals(bids)[i].nodeId))
  }

  /** With one bid per node, no integer split over the nodes is closer to the exact shares. */
  lemma {:induction false} NodeOptimal(total: nat, bids: seq<Proposal>, other: seq<int>)
    requires DistinctNodes(bids) && SomePositiveBid(bids)
    requires |other| == |bids| && SumInt(other) == total
    ensures ScoreSum(Scores(SortProposals(bids))) > 0.0
    ensures var q := Quotas(total, Scores(SortProposals(bids)));
            Deviation(Awards(total, bids), q) <= Deviation(other, q)
  {
    var scores := Scores(SortProposals(bids));
    SortKeepsPositive(bids);
    Optimal(total, scores, other);
    forall i | 0 <= i < |bids|
      ensures Awards(total, bids)[i] == Units(total, scores)[i]
    {
      AwardOfEntry(total, bids, i);
    }
    assert Awards(total, bids) == Units(total, scores);
  }
}
