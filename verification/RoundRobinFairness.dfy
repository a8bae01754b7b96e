/**
 Fairness of the shared round-robin counter (machineplane/scheduler/src/lib.rs:179-195):
 call number s picks positions s, s+1, ..., s+k-1 modulo n.
 */
module RoundRobinFairness {

  /** What one call picks out of the available candidates. */
  function Picks(available: seq<nat>, start: nat, count: nat): (r: seq<nat>)
    requires available != []
    ensures |r| == count
  {
    seq(count, i requires 0 <= i < count => available[(start + i) % |available|])
  }

  function Bit(b: bool): nat {
    if b then 1 else 0
  }

  /** Call s picks position p of n. */
  predicate Hits(n: nat, k: nat, s: int, p: nat)
    requires n > 0
  {
    (p - s) % n < k
  }

  lemma {:induction false} MulAtLeast(d: int, n: nat)
    ensures d >= 1 ==> d * n >= n
    ensures d <= -1 ==> d * n + n <= 0
  {
  }

  lemma {:induction false} ModFromQuotient(x: int, n: nat, q: int, m: int)
    requires n > 0 && 0 <= m < n && x == q * n + m
    ensures x % n == m
  {
    var d := x / n - q;
    assert x == (x / n) * n + x % n;
    assert d * n == m - x % n;
    MulAtLeast(d, n);
  }

  /** Position p lies i places after s, going round. */
  lemma {:induction false} PlaceAfter(n: nat, s: nat, p: nat, i: nat)
    requires n > 0 && p < n && i < n
    ensures (s + i) % n == p <==> (p - s) % n == i
  {
    var a, b := (s + i) / n, (p - s) / n;
    assert s + i == a * n + (s + i) % n;
    assert p - s == b * n + (p - s) % n;
    if (s + i) % n == p {
      assert p - s == (-a) * n + i;
      ModFromQuotient(p - s, n, -a, i);
    }
    if (p - s) % n == i {
      assert s + i == (-b) * n + p;
      ModFromQuotient(s + i, n, -b, p);
    }
  }

  ghost predicate Distinct(s: seq<nat>) {
    forall i, j :: 0 <= i < j < |s| ==> s[i] != s[j]
  }

  /** A candidate is picked by a call once if the call hits its position, and otherwise not at all. */
  lemma {:induction false} PicksAreHits(available: seq<nat>, start: nat, count: nat, p: nat)
    requires Distinct(available) && p < |available| && count <= |available|
    ensures multiset(Picks(available, start, count))[available[p]] == Bit(Hits(|available|, count, start, p))
  {
    var n := |available|;
    if count > 0 {
      var front, last := Picks(available, start, count - 1), available[(start + count - 1) % n];
      assert Picks(available, start, count) == front + [last];
      PicksAreHits(available, start, count - 1, p);
      PlaceAfter(n, start, p, count - 1);
      assert last == available[p] <==> (start + count - 1) % n == p;
    }
  }

  /** At most n picks in one call are pairwise distinct candidates. */
  lemma {:induction false} PicksAreDistinct(available: seq<nat>, start: nat, count: nat)
    requires available != [] && Distinct(available) && count <= |available|
    ensures Distinct(Picks(available, start, count))
    ensures forall x :: x in Picks(available, start, count) ==> x in available
  {
    var picks := Picks(available, start, count);
    forall i, j | 0 <= i < j < count
      ensures picks[i] != picks[j]
    {
      DifferentPlaces(|available|, start, i, j);
    }
  }

  lemma {:induction false} DifferentPlaces(n: nat, start: nat, i: nat, j: nat)
    requires i < j < n
    ensures (start + i) % n != (start + j) % n
  {
    PlaceAfter(n, start, (start + i) % n, i);
    PlaceAfter(n, start, (start + i) % n, j);
  }

  // ---------- windows of consecutive calls ----------

  /** How many of the calls a, a+1, ..., a+t-1 hit position p. */
  function Window(n: nat, k: nat, a: int, t: nat, p: nat): nat
    requires n > 0
    decreases t
  {
    if t == 0 then 0 else Window(n, k, a, t - 1, p) + Bit(Hits(n, k, a + t - 1, p))
  }

  lemma {:induction false} WindowSplit(n: nat, k: nat, a: int, t: nat, u: nat, p: nat)
    requires n > 0
    ensures Window(n, k, a, t + u, p) == Window(n, k, a, t, p) + Window(n, k, a + t, u, p)
    decreases u
  {
    if u > 0 {
      WindowSplit(n, k, a, t, u - 1, p);
      assert a + (t + u) - 1 == (a + t) + u - 1;
    }
  }

  lemma {:induction false} HitsRepeat(n: nat, k: nat, s: int, p: nat)
    requires n > 0
    ensures Hits(n, k, s + n, p) == Hits(n, k, s, p)
  {
    var q := (p - s) / n;
    assert p - s == q * n + (p - s) % n;
    assert p - (s + n) == (q - 1) * n + (p - s) % n;
    ModFromQuotient(p - (s + n), n, q - 1, (p - s) % n);
  }

  /** Sliding a window of n calls by one changes nothing. */
  lemma {:induction false} WindowSlides(n: nat, k: nat, a: int, p: nat)
    requires n > 0
    ensures Window(n, k, a + 1, n, p) == Window(n, k, a, n, p)
  {
    WindowSplit(n, k, a, 1, n, p);
    assert Window(n, k, a, 1, p) == Window(n, k, a, 0, p) + Bit(Hits(n, k, a, p));
    assert Window(n, k, a, n + 1, p) == Window(n, k, a, n, p) + Bit(Hits(n, k, a + n, p));
    HitsRepeat(n, k, a, p);
  }

  lemma {:induction false} WindowAnywhere(n: nat, k: nat, a: int, d: nat, p: nat)
    requires n > 0
    ensures Window(n, k, a + d, n, p) == Window(n, k, a, n, p)
  {
    if d > 0 {
      WindowAnywhere(n, k, a, d - 1, p);
      WindowSlides(n, k, a + d - 1, p);
      assert a + d - 1 + 1 == a + d;
    }
  }

  /** The window that ends at p: the last k calls hit. */
  lemma {:induction false} WindowEndingAt(n: nat, k: nat, t: nat, p: nat)
    requires n > 0 && k <= n && t <= n
    ensures Window(n, k, p - n + 1, t, p) == if t > n - k then t - (n - k) else 0
  {
    if t > 0 {
      WindowEndingAt(n, k, t - 1, p);
      assert p - (p - n + 1 + t - 1) == n - t;
      ModFromQuotient(n - t, n, 0, n - t);
    }
  }

  /** Any n consecutive calls hit every position exactly k times. */
  lemma {:induction false} WindowOfN(n: nat, k: nat, a: int, p: nat)
    requires n > 0 && k <= n
    ensures Window(n, k, a, n, p) == k
  {
    WindowEndingAt(n, k, n, p);
    var b := p - n + 1;
    if a >= b {
      WindowAnywhere(n, k, b, a - b, p);
      assert b + (a - b) == a;
    } else {
      WindowAnywhere(n, k, a, b - a, p);
      assert a + (b - a) == b;
    }
  }

  lemma {:induction false} WindowAtMost(n: nat, k: nat, a: int, t: nat, p: nat)
    requires n > 0
    ensures Window(n, k, a, t, p) <= t
  {
    if t > 0 {
      WindowAtMost(n, k, a, t - 1, p);
    }
  }

  /** After any number of calls two positions differ by at most min(k, n - k). */
  lemma {:induction false} WindowSpread(n: nat, k: nat, a: int, t: nat, p: nat, q: nat)
    requires n > 0 && k <= n
    ensures Window(n, k, a, t, p) <= Window(n, k, a, t, q) + k
    ensures Window(n, k, a, t, p) <= Window(n, k, a, t, q) + (n - k)
    decreases t
  {
    if t >= n {
      WindowSplit(n, k, a, n, t - n, p);
      WindowSplit(n, k, a, n, t - n, q);
      WindowOfN(n, k, a, p);
      WindowOfN(n, k, a, q);
      WindowSpread(n, k, a + n, t - n, p, q);
    } else {
      WindowSplit(n, k, a, t, n - t, p);
      WindowSplit(n, k, a, t, n - t, q);
      WindowOfN(n, k, a, p);
      WindowOfN(n, k, a, q);
      WindowAtMost(n, k, a, t, p);
      WindowAtMost(n, k, a + t, n - t, q);
    }
  }

  // ---------- what callers see ----------

  /** How often candidate c is selected by `calls` calls, the first one reading the counter as `start`. */
  function Selected(available: seq<nat>, start: nat, calls: nat, count: nat, c: nat): nat
    requires available != []
    decreases calls
  {
    if calls == 0 then 0
    else Selected(available, start, calls - 1, count, c)
         + multiset(Picks(available, start + calls - 1, count))[c]
  }

  lemma {:induction false} SelectedIsWindow(available: seq<nat>, start: nat, calls: nat, count: nat, p: nat)
    requires Distinct(available) && p < |available| && count <= |available|
    ensures Selected(available, start, calls, count, available[p]) == Window(|available|, count, start, calls, p)
  {
    if calls > 0 {
      SelectedIsWindow(available, start, calls - 1, count, p);
      PicksAreHits(available, start + calls - 1, count, p);
    }
  }

  /** Any n consecutive calls select every available candidate exactly `count` times. */
  lemma {:induction false} FairPerPeriod(available: seq<nat>, start: nat, count: nat, c: nat)
    requires Distinct(available) && c in available && count <= |available|
    ensures Selected(available, start, |available|, count, c) == count
  {
    var p: nat :| p < |available| && available[p] == c;
    SelectedIsWindow(available, start, |available|, count, p);
    WindowOfN(|available|, count, start, p);
  }

  /** After any number of calls two candidates' totals differ by at most count, and by at most n - count. */
  lemma {:induction false} FairAlways(available: seq<nat>, start: nat, calls: nat, count: nat, c: nat, d: nat)
    requires Distinct(available) && c in available && d in available && count <= |available|
    ensures Selected(available, start, calls, count, c) <= Selected(available, start, calls, count, d) + count
    ensures Selected(available, start, calls, count, c)
         <= Selected(available, start, calls, count, d) + (|available| - count)
  {
    var p: nat :| p < |available| && available[p] == c;
    var q: nat :| q < |available| && available[q] == d;
    SelectedIsWindow(available, start, calls, count, p);
    SelectedIsWindow(available, start, calls, count, q);
    WindowSpread(|available|, count, start, calls, p, q);
  }
}
