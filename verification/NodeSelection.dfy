/**
 Node selection (machineplane/scheduler/src/lib.rs): filtering, the four strategies and
 the shared round-robin counter. Loads are exact reals (no NaN). Machine words are 64 bits,
 and counter and seed wrap as in a release build.
 */
module NodeSelection {
  import opened Basics
  import opened Sums
  import opened StableOrder
  import opened RoundRobinFairness

  datatype Strategy = RoundRobin | Random | LoadBased | FirstAvailable

  datatype Config = Config(maxCandidates: Option<Usize>, strategy: Strategy)

  datatype Candidate = Candidate(nodeId: string, load: real, available: bool)

  datatype SchedulingError =
    | NoCandidatesAvailable
    | NoAvailableCandidates
    | InsufficientCandidates(available: nat, required: nat)
    | SelectionFailed

  datatype Plan = Plan(selected: seq<nat>, total: nat, strategy: Strategy)

  datatype Result = Ok(plan: Plan) | Err(error: SchedulingError)

  const USIZE_LIMIT: nat := 0x1_0000_0000_0000_0000
  const MAX_ATTEMPTS: nat := 1000

  type Usize = x: int | 0 <= x < 0x1_0000_0000_0000_0000

  // ---------- filtering ----------

  ghost predicate Rising(s: seq<nat>) {
    forall i, j :: 0 <= i < j < |s| ==> s[i] < s[j]
  }

  /** Positions of the available candidates, in order. */
  function Available(candidates: seq<Candidate>): (r: seq<nat>)
    ensures Rising(r) && Distinct(r) && InRange(r, |candidates|)
    ensures forall i :: i in r <==> 0 <= i < |candidates| && candidates[i].available
    ensures |r| <= |candidates|
  {
    if candidates == [] then []
    else
      var n := |candidates| - 1;
      var front := Available(candidates[..n]);
      assert forall k :: 0 <= k < |front| ==> front[k] in front;
      if candidates[n].available then front + [n] else front
  }

  function Wanted(config: Config, required: nat): nat {
    if config.maxCandidates.Some? && config.maxCandidates.value < required
    then config.maxCandidates.value else required
  }

  // ---------- load-based ----------

  function Loads(candidates: seq<Candidate>, available: seq<nat>): (r: seq<real>)
    requires InRange(available, |candidates|)
    ensures |r| == |available|
  {
    seq(|available|, k requires 0 <= k < |available| => candidates[available[k]].load)
  }

  lemma {:induction false} WantedIsTheSmaller(config: Config, required: nat)
    ensures Wanted(config, required) <= required
    ensures config.maxCandidates.Some? ==> Wanted(config, required) <= config.maxCandidates.value
    ensures Wanted(config, required) == required || config.maxCandidates == Some(Wanted(config, required))
  {
  }

  /** `select_load_based`: sort by load, stably, and take the first `count`. */
  function LeastLoaded(candidates: seq<Candidate>, available: seq<nat>, count: nat): (r: seq<nat>)
    requires InRange(available, |candidates|) && count <= |available|
    ensures |r| == count
  {
    var order := StableOrder.StableOrder(Loads(candidates, available));
    seq(count, k requires 0 <= k < count => available[order[k]])
  }

  /** Lighter, or as light and earlier in the list. */
  predicate Lighter(candidates: seq<Candidate>, c: nat, d: nat)
    requires c < |candidates| && d < |candidates|
  {
    candidates[c].load < candidates[d].load || (candidates[c].load == candidates[d].load && c < d)
  }

  lemma {:induction false} LeastLoadedIsASelection(candidates: seq<Candidate>, available: seq<nat>, count: nat)
    requires InRange(available, |candidates|) && Rising(available) && count <= |available|
    ensures Distinct(LeastLoaded(candidates, available, count))
    ensures forall c :: c in LeastLoaded(candidates, available, count) ==> c in available
  {
    var keys := Loads(candidates, available);
    OrderedIsInjective(keys, StableOrder.StableOrder(keys));
  }

  /** Whatever is left out is heavier than, or as heavy as and later than, whatever is selected. */
  lemma {:induction false} LeastLoadedFirst(candidates: seq<Candidate>, available: seq<nat>, count: nat, c: nat, d: nat)
    requires InRange(available, |candidates|) && Rising(available) && count <= |available|
    requires c in LeastLoaded(candidates, available, count)
    requires d in available && d !in LeastLoaded(candidates, available, count)
    ensures c < |candidates| && d < |candidates| && Lighter(candidates, c, d)
  {
    var keys := Loads(candidates, available);
    var order := StableOrder.StableOrder(keys);
    var chosen := LeastLoaded(candidates, available, count);
    var k := IndexIn(chosen, c);
    var p := IndexIn(available, d);
    var j := IndexIn(order, p);
    forall x | 0 <= x < count
      ensures available[order[x]] in chosen
    {
      assert chosen[x] == available[order[x]];
    }
    assert Before(keys, order[k], order[j]);
  }

  /** The selection comes lightest first, and equal loads in list order. */
  lemma {:induction false} LeastLoadedInOrder(candidates: seq<Candidate>, available: seq<nat>, count: nat, j: nat, k: nat)
    requires InRange(available, |candidates|) && Rising(available) && j < k < count <= |available|
    ensures var chosen := LeastLoaded(candidates, available, count);
            && chosen[j] < |candidates| && chosen[k] < |candidates|
            && (candidates[chosen[j]].load < candidates[chosen[k]].load
                || (candidates[chosen[j]].load == candidates[chosen[k]].load && chosen[j] < chosen[k]))
  {
    var keys := Loads(candidates, available);
    var order := StableOrder.StableOrder(keys);
    assert Before(keys, order[j], order[k]);
  }

  /** Sum of the loads of a set of candidates. */
  function TotalLoad(candidates: seq<Candidate>, chosen: set<nat>): real {
    if candidates == [] then 0.0
    else
      var n := |candidates| - 1;
      TotalLoad(candidates[..n], chosen) + (if n in chosen then candidates[n].load else 0.0)
  }

  /** Sum of the excess over a threshold. */
  function TotalExcess(candidates: seq<Candidate>, chosen: set<nat>, threshold: real): real {
    if candidates == [] then 0.0
    else
      var n := |candidates| - 1;
      TotalExcess(candidates[..n], chosen, threshold)
      + (if n in chosen then candidates[n].load - threshold else 0.0)
  }

  ghost function Below(chosen: set<nat>, n: nat): set<nat> {
    set i | i in chosen && i < n
  }

  lemma {:induction false} ExcessOfLoad(candidates: seq<Candidate>, chosen: set<nat>, threshold: real)
    ensures TotalExcess(candidates, chosen, threshold)
         == TotalLoad(candidates, chosen) - threshold * |Below(chosen, |candidates|)| as real
  {
    if candidates == [] {
      assert Below(chosen, 0) == {};
    } else {
      var n := |candidates| - 1;
      ExcessOfLoad(candidates[..n], chosen, threshold);
      var before := Below(chosen, n);
      if n in chosen {
        assert Below(chosen, n + 1) == before + {n};
        Distribute(threshold, |before|, 1);
      } else {
        assert Below(chosen, n + 1) == before;
      }
    }
  }

  lemma {:induction false} ExcessLe(candidates: seq<Candidate>, a: set<nat>, b: set<nat>, threshold: real)
    requires forall i :: 0 <= i < |candidates| && i in a && i !in b ==> candidates[i].load <= threshold
    requires forall i :: 0 <= i < |candidates| && i in b && i !in a ==> candidates[i].load >= threshold
    ensures TotalExcess(candidates, a, threshold) <= TotalExcess(candidates, b, threshold)
  {
    if candidates != [] {
      ExcessLe(candidates[..|candidates| - 1], a, b, threshold);
    }
  }

  function AsSet(s: seq<nat>): set<nat> {
    set x | x in s
  }

  lemma {:induction false} DistinctCard(s: seq<nat>)
    requires Distinct(s)
    ensures |AsSet(s)| == |s|
  {
    if s != [] {
      var n := |s| - 1;
      DistinctCard(s[..n]);
      assert s == s[..n] + [s[n]];
      assert AsSet(s) == AsSet(s[..n]) + {s[n]};
      assert s[n] !in s[..n];
    }
  }

  /** Sets of one size, separated by a threshold on their differences. */
  lemma {:induction false} SeparatedLoads(candidates: seq<Candidate>, a: set<nat>, b: set<nat>, threshold: real)
    requires |a| == |b|
    requires forall i :: i in a || i in b ==> i < |candidates|
    requires forall i :: 0 <= i < |candidates| && i in a && i !in b ==> candidates[i].load <= threshold
    requires forall i :: 0 <= i < |candidates| && i in b && i !in a ==> candidates[i].load >= threshold
    ensures TotalLoad(candidates, a) <= TotalLoad(candidates, b)
  {
    assert Below(a, |candidates|) == a && Below(b, |candidates|) == b;
    ExcessLe(candidates, a, b, threshold);
    ExcessOfLoad(candidates, a, threshold);
    ExcessOfLoad(candidates, b, threshold);
  }

  /** No other choice of that many available candidates carries less load. */
  lemma {:induction false} LeastLoadedIsOptimal(candidates: seq<Candidate>, available: seq<nat>, count: nat, other: set<nat>)
    requires InRange(available, |candidates|) && Rising(available) && count <= |available|
    requires |other| == count && forall i :: i in other ==> i in available
    ensures TotalLoad(candidates, AsSet(LeastLoaded(candidates, available, count))) <= TotalLoad(candidates, other)
  {
    var chosen := LeastLoaded(candidates, available, count);
    LeastLoadedIsASelection(candidates, available, count);
    DistinctCard(chosen);
    if count == 0 {
      assert other == {} && AsSet(chosen) == {};
    } else {
      var threshold := candidates[chosen[count - 1]].load;
      forall i | i in AsSet(chosen)
        ensures candidates[i].load <= threshold
      {
        LastIsHeaviest(candidates, available, count, i);
      }
      forall i | i in other && i !in AsSet(chosen)
        ensures candidates[i].load >= threshold
      {
        LeastLoadedFirst(candidates, available, count, chosen[count - 1], i);
      }
      SeparatedLoads(candidates, AsSet(chosen), other, threshold);
    }
  }

  lemma {:induction false} LastIsHeaviest(candidates: seq<Candidate>, available: seq<nat>, count: nat, c: nat)
    requires InRange(available, |candidates|) && 0 < count <= |available|
    requires c in LeastLoaded(candidates, available, count)
    ensures c < |candidates|
    ensures LeastLoaded(candidates, available, count)[count - 1] < |candidates|
    ensures candidates[c].load <= candidates[LeastLoaded(candidates, available, count)[count - 1]].load
  {
    var keys := Loads(candidates, available);
    var order := StableOrder.StableOrder(keys);
    OrderedKeys(keys, order);
    var k := IndexIn(LeastLoaded(candidates, available, count), c);
    assert keys[order[k]] <= keys[order[count - 1]];
  }

  // ---------- positions from a counter that wraps ----------

  /** Where the i-th probe from `start` lands among n candidates. */
  function Slot(start: Usize, i: nat, n: nat): (p: nat)
    requires n > 0
    ensures p < n
  {
    (start + i) % USIZE_LIMIT % n
  }

  /** The candidates that `count` consecutive probes from `start` reach. */
  function Probes(available: seq<nat>, start: Usize, count: nat): (r: seq<nat>)
    requires available != []
    ensures |r| == count
    ensures forall x :: x in r ==> x in available
  {
    seq(count, i requires 0 <= i < count => available[Slot(start, i, |available|)])
  }

  /** The probes do not repeat a position on account of the wrap. */
  predicate Steady(start: Usize, count: nat, n: nat)
    requires n > 0
  {
    start + count <= USIZE_LIMIT || USIZE_LIMIT % n == 0 || count <= USIZE_LIMIT % n
  }

  lemma {:induction false} BelowWrap(available: seq<nat>, start: Usize, count: nat)
    requires available != [] && (start + count <= USIZE_LIMIT || USIZE_LIMIT % |available| == 0)
    ensures Probes(available, start, count) == Picks(available, start, count)
  {
    var n := |available|;
    forall i | 0 <= i < count
      ensures Slot(start, i, n) == (start + i) % n
    {
      if USIZE_LIMIT % n == 0 {
        WholeWraps(start + i, n);
      } else {
        WrapsOnce(start + i);
      }
    }
  }

  lemma {:induction false} WholeWraps(x: nat, n: nat)
    requires n > 0 && USIZE_LIMIT % n == 0
    ensures x % USIZE_LIMIT % n == x % n
  {
    var q, a, b := USIZE_LIMIT / n, x / USIZE_LIMIT, x % USIZE_LIMIT / n;
    assert USIZE_LIMIT == q * n;
    assert x == a * USIZE_LIMIT + x % USIZE_LIMIT;
    assert x % USIZE_LIMIT == b * n + x % USIZE_LIMIT % n;
    assert a * (q * n) + b * n == (a * q + b) * n;
    ModFromQuotient(x, n, a * q + b, x % USIZE_LIMIT % n);
  }

  /** Positions just below the wrap, counted back from it. */
  lemma {:induction false} NearWrap(x: nat, n: nat)
    requires n > 0 && x <= USIZE_LIMIT % n
    ensures (USIZE_LIMIT - x) % n == USIZE_LIMIT % n - x
  {
    ModFromQuotient(USIZE_LIMIT - x, n, USIZE_LIMIT / n, USIZE_LIMIT % n - x);
  }

  /** Across the wrap, with few enough probes: first a rising stretch, then one that starts again from 0 below it. */
  lemma {:induction false} SlotAcross(start: Usize, i: nat, count: nat, n: nat)
    requires n > 0 && i < count <= USIZE_LIMIT % n && start + count > USIZE_LIMIT
    ensures Slot(start, i, n) == if start + i < USIZE_LIMIT then USIZE_LIMIT % n - (USIZE_LIMIT - start) + i
                                 else start + i - USIZE_LIMIT
  {
    SlotBelow(start, i, n);
    assert USIZE_LIMIT % n <= USIZE_LIMIT;
    if start + i < USIZE_LIMIT {
      NearWrap(USIZE_LIMIT - start - i, n);
    }
  }

  lemma {:induction false} WrapsOnce(x: nat)
    ensures x < USIZE_LIMIT ==> x % USIZE_LIMIT == x
    ensures USIZE_LIMIT <= x < 2 * USIZE_LIMIT ==> x % USIZE_LIMIT == x - USIZE_LIMIT
  {
    if USIZE_LIMIT <= x < 2 * USIZE_LIMIT {
      ModFromQuotient(x, USIZE_LIMIT, 1, x - USIZE_LIMIT);
    }
  }

  lemma {:induction false} SlotBelow(start: Usize, i: nat, n: nat)
    requires n > 0
    ensures start + i < USIZE_LIMIT ==> Slot(start, i, n) == (start + i) % n
    ensures USIZE_LIMIT <= start + i < USIZE_LIMIT + n && i <= USIZE_LIMIT ==> Slot(start, i, n) == start + i - USIZE_LIMIT
  {
    WrapsOnce(start + i);
    if USIZE_LIMIT <= start + i < USIZE_LIMIT + n {
      ModFromQuotient(start + i - USIZE_LIMIT, n, 0, start + i - USIZE_LIMIT);
    }
  }

  /** Across the wrap, with too many probes: two that lie the remainder apart meet. */
  lemma {:induction false} SlotsMeet(start: Usize, count: nat, n: nat) returns (i: nat)
    requires 0 < n && 0 < USIZE_LIMIT % n < count && start + count > USIZE_LIMIT
    ensures i + USIZE_LIMIT % n < count
    ensures Slot(start, i, n) == Slot(start, i + USIZE_LIMIT % n, n)
  {
    var g, w := USIZE_LIMIT % n, USIZE_LIMIT - start;
    assert g <= USIZE_LIMIT;
    i := if w <= g then 0 else w - g;
    NearWrap(if w <= g then w else g, n);
    SlotBelow(start, i, n);
    SlotBelow(start, i + g, n);
  }

  /** Up to n probes reach pairwise distinct candidates iff they are steady. */
  lemma {:induction false} DistinctIffSteady(available: seq<nat>, start: Usize, count: nat)
    requires available != [] && Distinct(available) && count <= |available|
    ensures Distinct(Probes(available, start, count)) <==> Steady(start, count, |available|)
  {
    var n, probes := |available|, Probes(available, start, count);
    if start + count <= USIZE_LIMIT || USIZE_LIMIT % n == 0 {
      BelowWrap(available, start, count);
      PicksAreDistinct(available, start, count);
    } else if count <= USIZE_LIMIT % n {
      forall i, j | 0 <= i < j < count
        ensures probes[i] != probes[j]
      {
        SlotAcross(start, i, count, n);
        SlotAcross(start, j, count, n);
      }
    } else {
      var i := SlotsMeet(start, count, n);
      assert probes[i] == probes[i + USIZE_LIMIT % n];
    }
  }

  /** It happens: at the last counter value, two of three candidates are the same one. */
  lemma {:induction false} WrapRepeats()
    ensures Probes([0, 1, 2], USIZE_LIMIT - 1, 2) == [0, 0]
  {
    assert (USIZE_LIMIT - 1) % USIZE_LIMIT % 3 == 0;
    assert USIZE_LIMIT % USIZE_LIMIT % 3 == 0;
  }

  // ---------- fairness of the wrapping counter ----------

  function CounterAt(start: Usize, i: nat): Usize {
    (start + i) % USIZE_LIMIT
  }

  /** How often candidate c is selected by `calls` calls, the first one reading the counter as `start`. */
  function SelectedByCounter(available: seq<nat>, start: Usize, calls: nat, count: nat, c: nat): nat
    requires available != []
    decreases calls
  {
    if calls == 0 then 0
    else SelectedByCounter(available, start, calls - 1, count, c)
         + multiset(Probes(available, CounterAt(start, calls - 1), count))[c]
  }

  lemma {:induction false} WrapTwice(x: nat, j: nat)
    ensures (x % USIZE_LIMIT + j) % USIZE_LIMIT == (x + j) % USIZE_LIMIT
  {
    var a, y := x / USIZE_LIMIT, x % USIZE_LIMIT + j;
    var b := y / USIZE_LIMIT;
    assert x + j == a * USIZE_LIMIT + y;
    assert y == b * USIZE_LIMIT + y % USIZE_LIMIT;
    assert a * USIZE_LIMIT + b * USIZE_LIMIT == (a + b) * USIZE_LIMIT;
    ModFromQuotient(x + j, USIZE_LIMIT, a + b, y % USIZE_LIMIT);
  }

  /** The calls stay below the wrap, or the wrap is a whole number of rounds. */
  predicate WrapsEvenly(start: Usize, calls: nat, count: nat, n: nat)
    requires n > 0
  {
    USIZE_LIMIT % n == 0 || start + calls + count <= USIZE_LIMIT
  }

  lemma {:induction false} CallIsPicks(available: seq<nat>, start: Usize, i: nat, calls: nat, count: nat)
    requires available != [] && i < calls && WrapsEvenly(start, calls, count, |available|)
    ensures Probes(available, CounterAt(start, i), count) == Picks(available, start + i, count)
  {
    var n := |available|;
    forall j | 0 <= j < count
      ensures Slot(CounterAt(start, i), j, n) == (start + i + j) % n
    {
      WrapTwice(start + i, j);
      if USIZE_LIMIT % n == 0 {
        WholeWraps(start + i + j, n);
      } else {
        WrapsOnce(start + i + j);
      }
    }
  }

  lemma {:induction false} SelectedStep(available: seq<nat>, start: Usize, done: nat, count: nat, c: nat)
    requires available != [] && done > 0
    ensures SelectedByCounter(available, start, done, count, c)
         == SelectedByCounter(available, start, done - 1, count, c) + multiset(Probes(available, CounterAt(start, done - 1), count))[c]
    ensures Selected(available, start, done, count, c)
         == Selected(available, start, done - 1, count, c) + multiset(Picks(available, start + done - 1, count))[c]
  {
  }

  lemma {:induction false} CounterIsSelected(available: seq<nat>, start: Usize, done: nat, calls: nat, count: nat, c: nat)
    requires available != [] && done <= calls && WrapsEvenly(start, calls, count, |available|)
    ensures SelectedByCounter(available, start, done, count, c) == Selected(available, start, done, count, c)
  {
    if done > 0 {
      CounterIsSelected(available, start, done - 1, calls, count, c);
      CallIsPicks(available, start, done - 1, calls, count);
      SelectedStep(available, start, done, count, c);
    }
  }

  /** Any n consecutive calls that wrap evenly select every available candidate exactly `count` times. */
  lemma {:induction false} CounterFairPerPeriod(available: seq<nat>, start: Usize, count: nat, c: nat)
    requires Distinct(available) && c in available && count <= |available|
    requires WrapsEvenly(start, |available|, count, |available|)
    ensures SelectedByCounter(available, start, |available|, count, c) == count
  {
    CounterIsSelected(available, start, |available|, |available|, count, c);
    FairPerPeriod(available, start, count, c);
  }

  /** After any number of calls that wrap evenly, two candidates differ by at most count, and by at most n - count. */
  lemma {:induction false} CounterFairAlways(available: seq<nat>, start: Usize, calls: nat, count: nat, c: nat, d: nat)
    requires Distinct(available) && c in available && d in available && count <= |available|
    requires WrapsEvenly(start, calls, count, |available|)
    ensures SelectedByCounter(available, start, calls, count, c) <= SelectedByCounter(available, start, calls, count, d) + count
    ensures SelectedByCounter(available, start, calls, count, c)
         <= SelectedByCounter(available, start, calls, count, d) + (|available| - count)
  {
    CounterIsSelected(available, start, calls, calls, count, c);
    CounterIsSelected(available, start, calls, calls, count, d);
    FairAlways(available, start, calls, count, c, d);
  }

  lemma {:induction false} SinglePicks(available: seq<nat>, start: Usize, calls: nat, c: nat)
    requires available != []
    ensures SelectedByCounter(available, start, calls, 1, c) == multiset(Probes(available, start, calls))[c]
  {
    if calls > 0 {
      SinglePicks(available, start, calls - 1, c);
      var x := available[Slot(start, calls - 1, |available|)];
      WrapsOnce(CounterAt(start, calls - 1));
      assert Probes(available, CounterAt(start, calls - 1), 1) == [x];
      assert Probes(available, start, calls) == Probes(available, start, calls - 1) + [x];
    }
  }

  lemma {:induction false} DistinctCounts(s: seq<nat>, x: nat)
    requires Distinct(s) && x in s
    ensures multiset(s)[x] == 1
  {
    var n := |s| - 1;
    assert s == s[..n] + [s[n]];
    if s[n] == x {
      assert x !in s[..n];
    } else {
      DistinctCounts(s[..n], x);
    }
  }

  lemma {:induction false} RepeatCounts(s: seq<nat>, i: nat, j: nat)
    requires i < j < |s| && s[i] == s[j]
    ensures multiset(s)[s[i]] >= 2
  {
    assert s == s[..j] + s[j..];
    assert s[..j][i] == s[i] && s[j..][0] == s[i];
    assert s[i] in s[..j] && s[i] in s[j..];
  }

  lemma {:induction false} AllAreReached(s: seq<nat>, available: seq<nat>, c: nat)
    requires Distinct(s) && Distinct(available) && |s| == |available| && c in available
    requires forall x :: x in s ==> x in available
    ensures c in s
  {
    DistinctCard(s);
    DistinctCard(available);
    assert |AsSet(available) - AsSet(s)| == |AsSet(available)| - |AsSet(s)|;
    assert c in AsSet(available);
  }

  /** One candidate at a time: n consecutive calls select each exactly once iff they stay below the wrap or it is even. */
  lemma {:induction false} SinglePickFairIff(available: seq<nat>, start: Usize)
    requires available != [] && Distinct(available)
    ensures (forall c :: c in available ==> SelectedByCounter(available, start, |available|, 1, c) == 1) <==>
              start + |available| <= USIZE_LIMIT || USIZE_LIMIT % |available| == 0
  {
    var n := |available|;
    var probes := Probes(available, start, n);
    DistinctIffSteady(available, start, n);
    if Distinct(probes) {
      forall c | c in available
        ensures SelectedByCounter(available, start, n, 1, c) == 1
      {
        SinglePicks(available, start, n, c);
        AllAreReached(probes, available, c);
        DistinctCounts(probes, c);
      }
    } else {
      var i, j :| 0 <= i < j < n && probes[i] == probes[j];
      SinglePicks(available, start, n, probes[i]);
      RepeatCounts(probes, i, j);
      assert probes[i] in available;
    }
  }

  // ---------- random ----------

  /** The set of candidates that `count` consecutive probes from the seed reach. */
  ghost function Probed(available: seq<nat>, seed: Usize, count: nat): set<nat>
    requires available != []
  {
    set i | 0 <= i < count :: available[Slot(seed, i, |available|)]
  }

  lemma {:induction false} ProbedIsProbes(available: seq<nat>, seed: Usize, count: nat)
    requires available != []
    ensures Probed(available, seed, count) == AsSet(Probes(available, seed, count))
  {
    var probes := Probes(available, seed, count);
    forall i | 0 <= i < count
      ensures available[Slot(seed, i, |available|)] in AsSet(probes)
    {
      assert probes[i] in probes;
    }
  }

  lemma {:induction false} ProbedGrows(available: seq<nat>, seed: Usize, n: nat)
    requires available != []
    ensures Probed(available, seed, n + 1) == Probed(available, seed, n) + {available[Slot(seed, n, |available|)]}
    ensures |Probed(available, seed, n)| <= |Probed(available, seed, n + 1)| <= |Probed(available, seed, n)| + 1
  {
    var x := available[Slot(seed, n, |available|)];
    OneMore(Probed(available, seed, n), x);
    assert x in Probed(available, seed, n + 1);
    assert Probed(available, seed, n + 1) == Probed(available, seed, n) + {x};
  }

  lemma {:induction false} OneMore(s: set<nat>, x: nat)
    ensures |s| <= |s + {x}| <= |s| + 1
  {
    if x in s {
      assert s + {x} == s;
    }
  }

  lemma {:induction false} ProbedMonotone(available: seq<nat>, seed: Usize, m: nat, n: nat)
    requires available != [] && m <= n
    ensures |Probed(available, seed, m)| <= |Probed(available, seed, n)|
  {
    if m < n {
      ProbedMonotone(available, seed, m, n - 1);
      ProbedGrows(available, seed, n - 1);
    }
  }

  /** Every probe finds a new candidate as long as the seed stays below the wrap. */
  lemma {:induction false} EveryProbeIsNew(available: seq<nat>, seed: Usize, n: nat)
    requires available != [] && Distinct(available) && n <= |available| && seed + n <= USIZE_LIMIT
    ensures |Probed(available, seed, n)| == n
  {
    DistinctIffSteady(available, seed, n);
    DistinctCard(Probes(available, seed, n));
    ProbedIsProbes(available, seed, n);
  }

  /** Some order of the set's elements, as a hash set yields them. */
  method Drain(s: set<nat>) returns (r: seq<nat>)
    ensures Distinct(r) && AsSet(r) == s && |r| == |s|
  {
    r := [];
    var todo := s;
    while todo != {}
      invariant todo <= s
      invariant Distinct(r) && AsSet(r) == s - todo && |r| + |todo| == |s|
      decreases todo
    {
      var x :| x in todo;
      assert x !in AsSet(r);
      assert AsSet(r + [x]) == AsSet(r) + {x};
      r := r + [x];
      todo := todo - {x};
    }
  }

  /** Enough probes are those that reach at least `count` candidates. */
  ghost predicate Enough(available: seq<nat>, seed: Usize, count: nat, probes: nat)
    requires available != []
  {
    |Probed(available, seed, probes)| >= count
  }

  /** Probes until enough, and fails iff the allowed attempts are not. */
  method SelectRandom(available: seq<nat>, count: nat, seed: Usize) returns (r: Option<seq<nat>>, ghost probes: nat)
    requires available != []
    ensures r.Some? <==> Enough(available, seed, count, MAX_ATTEMPTS)
    ensures r.Some? ==> |r.value| == count && Distinct(r.value) && AsSet(r.value) == Probed(available, seed, probes)
    ensures probes <= MAX_ATTEMPTS && forall k :: 0 <= k < probes ==> !Enough(available, seed, count, k)
  {
    var selected: set<nat> := {};
    var attempts := 0;
    assert Probed(available, seed, 0) == {};
    while |selected| < count && attempts < MAX_ATTEMPTS
      invariant attempts <= MAX_ATTEMPTS && |selected| <= count
      invariant selected == Probed(available, seed, attempts)
      invariant forall k :: 0 <= k < attempts ==> !Enough(available, seed, count, k)
    {
      var idx := Slot(seed, attempts, |available|);
      ProbedGrows(available, seed, attempts);
      selected := selected + {available[idx]};
      attempts := attempts + 1;
    }
    probes := attempts;
    ProbedMonotone(available, seed, attempts, MAX_ATTEMPTS);
    if |selected| < count {
      return None, probes;
    }
    var order := Drain(selected);
    r := Some(order);
  }

  /** Below the wrap: enough after exactly `count` probes, and so fails iff more than the limit are wanted. */
  lemma {:induction false} EnoughBelowWrap(available: seq<nat>, seed: Usize, count: nat, probes: nat)
    requires available != [] && Distinct(available) && count <= |available|
    requires seed + MAX_ATTEMPTS <= USIZE_LIMIT && probes <= MAX_ATTEMPTS
    ensures Enough(available, seed, count, probes) <==> count <= probes
    ensures MAX_ATTEMPTS == 1000
  {
    if count <= probes {
      EveryProbeIsNew(available, seed, count);
      ProbedMonotone(available, seed, count, probes);
    } else {
      EveryProbeIsNew(available, seed, probes);
    }
  }

  /** Up to n candidates take exactly as many probes iff the probes are steady. */
  lemma {:induction false} ExactProbesIffSteady(available: seq<nat>, seed: Usize, count: nat)
    requires available != [] && Distinct(available) && count <= |available|
    ensures Enough(available, seed, count, count) <==> Steady(seed, count, |available|)
  {
    var probes := Probes(available, seed, count);
    DistinctIffSteady(available, seed, count);
    ProbedIsProbes(available, seed, count);
    if Distinct(probes) {
      DistinctCard(probes);
    } else {
      var i, j :| 0 <= i < j < |probes| && probes[i] == probes[j];
      RepeatShrinks(probes, i, j);
    }
  }

  lemma {:induction false} AsSetAtMost(s: seq<nat>)
    ensures |AsSet(s)| <= |s|
  {
    if s != [] {
      var n := |s| - 1;
      AsSetAtMost(s[..n]);
      OneMore(AsSet(s[..n]), s[n]);
      assert AsSet(s) == AsSet(s[..n]) + {s[n]};
    }
  }

  lemma {:induction false} RepeatShrinks(s: seq<nat>, i: nat, j: nat)
    requires i < j < |s| && s[i] == s[j]
    ensures |AsSet(s)| < |s|
  {
    var t := s[..j] + s[j + 1..];
    forall x | x in s
      ensures x in t
    {
      var k :| 0 <= k < |s| && s[k] == x;
      assert if k < j then t[k] == x else if k == j then t[i] == x else t[k - 1] == x;
    }
    assert AsSet(t) == AsSet(s);
    AsSetAtMost(t);
  }

  // ---------- the scheduler object ----------

  /** What each strategy owes on success. */
  ghost predicate Delivers(strategy: Strategy, candidates: seq<Candidate>, counter: Usize, seed: Usize, count: nat, selected: seq<nat>)
    requires 0 < |Available(candidates)| && count <= |Available(candidates)|
  {
    var available := Available(candidates);
    match strategy
    case FirstAvailable => selected == available[..count]
    case RoundRobin => selected == Probes(available, counter, count)
    case Random => exists n :: 0 <= n <= MAX_ATTEMPTS && AsSet(selected) == Probed(available, seed, n)
    case LoadBased => selected == LeastLoaded(candidates, available, count)
  }

  /** The selection rises through the list, and skips no available candidate before its last. */
  ghost predicate TakesTheFirst(candidates: seq<Candidate>, selected: seq<nat>) {
    && (forall j, k :: 0 <= j < k < |selected| ==> selected[j] < selected[k])
    && (forall i, j :: i in selected && 0 <= j < i && j < |candidates| && candidates[j].available ==> j in selected)
  }

  /** Lightest first, and whatever is left out is heavier, or as heavy and later, than whatever is selected. */
  ghost predicate TakesTheLightest(candidates: seq<Candidate>, selected: seq<nat>) {
    && (forall i :: i in selected ==> i < |candidates|)
    && (forall j, k :: 0 <= j < k < |selected| ==> LighterOrBefore(candidates, selected[j], selected[k]))
    && (forall i, d :: i in selected && 0 <= d < |candidates| && candidates[d].available && d !in selected ==>
          LighterOrBefore(candidates, i, d))
  }

  predicate LighterOrBefore(candidates: seq<Candidate>, c: int, d: int) {
    && 0 <= c < |candidates| && 0 <= d < |candidates|
    && (candidates[c].load < candidates[d].load || (candidates[c].load == candidates[d].load && c < d))
  }

  /** From the counter on, one available candidate after the other, going round. */
  ghost predicate TakesTheNext(candidates: seq<Candidate>, counter: nat, selected: seq<nat>) {
    var available := Available(candidates);
    && available != []
    && forall k :: 0 <= k < |selected| ==> selected[k] == available[(counter + k) % 0x1_0000_0000_0000_0000 % |available|]
  }

  /** What a caller means by each strategy; random selection means nothing beyond distinct available candidates. */
  ghost predicate IsMeant(strategy: Strategy, candidates: seq<Candidate>, counter: nat, selected: seq<nat>) {
    && (strategy == FirstAvailable ==> TakesTheFirst(candidates, selected))
    && (strategy == LoadBased ==> TakesTheLightest(candidates, selected))
    && (strategy == RoundRobin ==> TakesTheNext(candidates, counter, selected))
  }

  lemma {:induction false} DeliversIsMeant(strategy: Strategy, candidates: seq<Candidate>, counter: Usize, seed: Usize, count: nat, selected: seq<nat>)
    requires 0 < |Available(candidates)| && count <= |Available(candidates)|
    requires Delivers(strategy, candidates, counter, seed, count, selected)
    ensures IsMeant(strategy, candidates, counter, selected)
  {
    var available := Available(candidates);
    if strategy == FirstAvailable {
      FirstIsMeant(candidates, count);
    } else if strategy == LoadBased {
      LightestIsMeant(candidates, count);
    }
  }

  lemma {:induction false} FirstIsMeant(candidates: seq<Candidate>, count: nat)
    requires count <= |Available(candidates)|
    ensures TakesTheFirst(candidates, Available(candidates)[..count])
  {
    var available := Available(candidates);
    var selected := available[..count];
    forall i, j | i in selected && 0 <= j < i && j < |candidates| && candidates[j].available
      ensures j in selected
    {
      var x := IndexIn(available, j);
      var y :| 0 <= y < count && selected[y] == i;
      assert available[x] < available[y];
      assert x < y;
      assert selected[x] == j;
    }
  }

  lemma {:induction false} LightestIsMeant(candidates: seq<Candidate>, count: nat)
    requires count <= |Available(candidates)|
    ensures TakesTheLightest(candidates, LeastLoaded(candidates, Available(candidates), count))
  {
    var available := Available(candidates);
    var selected := LeastLoaded(candidates, available, count);
    LeastLoadedIsASelection(candidates, available, count);
    forall j, k | 0 <= j < k < |selected|
      ensures LighterOrBefore(candidates, selected[j], selected[k])
    {
      LeastLoadedInOrder(candidates, available, count, j, k);
    }
    forall i, d | i in selected && 0 <= d < |candidates| && candidates[d].available && d !in selected
      ensures LighterOrBefore(candidates, i, d)
    {
      LeastLoadedFirst(candidates, available, count, i, d);
    }
  }

  /** Only round-robin can repeat a candidate, and only across the wrap. */
  predicate NoRepeat(strategy: Strategy, counter: Usize, count: nat, n: nat)
    requires n > 0
  {
    strategy == RoundRobin ==> Steady(counter, count, n)
  }

  class Scheduler {
    const config: Config
    var counter: Usize

    constructor (config: Config)
      ensures this.config == config && counter == 0
    {
      this.config := config;
      counter := 0;
    }

    method SelectRoundRobin(available: seq<nat>, count: nat) returns (selected: seq<nat>)
      requires available != []
      modifies this`counter
      ensures counter == (old(counter) + 1) % USIZE_LIMIT
      ensures selected == Probes(available, old(counter), count)
      ensures |selected| == count
      ensures forall k :: 0 <= k < count ==>
                selected[k] == available[(old(counter) + k) % 0x1_0000_0000_0000_0000 % |available|]
    {
      var start := counter;
      counter := (counter + 1) % USIZE_LIMIT;
      selected := [];
      for i := 0 to count
        invariant selected == Probes(available, start, i)
      {
        selected := selected + [available[Slot(start, i, |available|)]];
      }
    }

    method SelectCandidates(candidates: seq<Candidate>, count: nat, seed: Usize) returns (r: Option<seq<nat>>)
      requires 0 < |Available(candidates)| && count <= |Available(candidates)|
      modifies this`counter
      ensures counter == if config.strategy == RoundRobin then (old(counter) + 1) % USIZE_LIMIT else old(counter)
      ensures r.None? <==> config.strategy == Random && !Enough(Available(candidates), seed, count, MAX_ATTEMPTS)
      ensures r.Some? ==> |r.value| == count
                          && (Distinct(r.value) <==> NoRepeat(config.strategy, old(counter), count, |Available(candidates)|))
                          && (forall i :: i in r.value ==> i in Available(candidates))
                          && Delivers(config.strategy, candidates, old(counter), seed, count, r.value)
    {
      var available := Available(candidates);
      match config.strategy {
        case FirstAvailable =>
          r := Some(available[..count]);
        case RoundRobin =>
          var picks := SelectRoundRobin(available, count);
          DistinctIffSteady(available, old(counter), count);
          r := Some(picks);
        case Random =>
          ghost var probes;
          r, probes := SelectRandom(available, count, seed);
          assert r.Some? ==> forall i :: i in r.value ==> i in AsSet(r.value);
        case LoadBased =>
          LeastLoadedIsASelection(candidates, available, count);
          r := Some(LeastLoaded(candidates, available, count));
      }
    }

    /** `schedule_workload`: the errors, and on success exactly as many available candidates as wanted. */
    method ScheduleWorkload(candidates: seq<Candidate>, required: Usize, seed: Usize) returns (r: Result)
      modifies this`counter
      ensures r == Err(NoCandidatesAvailable) <==> candidates == []
      ensures r == Err(NoAvailableCandidates) <==> candidates != [] && Available(candidates) == []
      ensures r.Err? && r.error.InsufficientCandidates? <==>
                && Available(candidates) != [] && |Available(candidates)| < required
                && (config.maxCandidates.Some? ==> |Available(candidates)| < config.maxCandidates.value)
      ensures r.Err? && r.error.InsufficientCandidates? ==>
                && r.error.available == |Available(candidates)|
                && r.error.required <= required
                && (config.maxCandidates.Some? ==> r.error.required <= config.maxCandidates.value)
                && (r.error.required == required || config.maxCandidates == Some(r.error.required))
      ensures r == Err(SelectionFailed) <==>
                && 0 < |Available(candidates)| && Wanted(config, required) <= |Available(candidates)|
                && config.strategy == Random
                && !Enough(Available(candidates), seed, Wanted(config, required), MAX_ATTEMPTS)
      ensures r.Ok? ==>
                && r.plan.total == |candidates| && r.plan.strategy == config.strategy
                && |r.plan.selected| == Wanted(config, required)
                && |r.plan.selected| <= required
                && (config.maxCandidates.Some? ==> |r.plan.selected| <= config.maxCandidates.value)
                && (|r.plan.selected| == required || config.maxCandidates == Some(|r.plan.selected|))
                && (forall i :: i in r.plan.selected ==> i < |candidates| && candidates[i].available)
                && 0 < |Available(candidates)| && Wanted(config, required) <= |Available(candidates)|
                && (Distinct(r.plan.selected) <==>
                      NoRepeat(config.strategy, old(counter), Wanted(config, required), |Available(candidates)|))
                && Delivers(config.strategy, candidates, old(counter), seed, Wanted(config, required), r.plan.selected)
      ensures counter == if r.Ok? && config.strategy == RoundRobin then (old(counter) + 1) % USIZE_LIMIT else old(counter)
      ensures r.Ok? ==> IsMeant(config.strategy, candidates, old(counter), r.plan.selected)
    {
      if candidates == [] {
        return Err(NoCandidatesAvailable);
      }
      var available := Available(candidates);
      if available == [] {
        return Err(NoAvailableCandidates);
      }
      var count := Wanted(config, required);
      WantedIsTheSmaller(config, required);
      if |available| < count {
        return Err(InsufficientCandidates(|available|, count));
      }
      var selected := SelectCandidates(candidates, count, seed);
      if selected.None? {
        return Err(SelectionFailed);
      }
      DeliversIsMeant(config.strategy, candidates, old(counter), seed, count, selected.value);
      r := Ok(Plan(selected.value, |candidates|, config.strategy));
    }
  }
}
