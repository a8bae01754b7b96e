/**
 Splitting a total by largest remainder, given the exact share of each entry
 (workplane/internal/machine/scheduler.go:187-216). A share may be negative; the positive
 parts add up to the total.
 */
module LargestRemainder {
  import opened Sums
  import opened StableOrder

  // ---------- definitions ----------

  function Positive(x: real): real {
    if x > 0.0 then x else 0.0
  }

  function PositiveParts(s: seq<real>): (r: seq<real>)
    ensures |r| == |s|
  {
    seq(|s|, i requires 0 <= i < |s| => Positive(s[i]))
  }

  /** Go's conversion int(x) drops the fraction, towards zero. */
  function Truncate(x: real): int {
    if x >= 0.0 then x.Floor else -((-x).Floor)
  }

  function Base(share: real): nat {
    if Truncate(share) > 0 then Truncate(share) else 0
  }

  function Remainder(share: real): real {
    share - Truncate(share) as real
  }

  function Bases(shares: seq<real>): (r: seq<nat>)
    ensures |r| == |shares|
  {
    seq(|shares|, i requires 0 <= i < |shares| => Base(shares[i]))
  }

  function Remainders(shares: seq<real>): (r: seq<real>)
    ensures |r| == |shares|
  {
    seq(|shares|, i requires 0 <= i < |shares| => Remainder(shares[i]))
  }

  function Negated(s: seq<real>): (r: seq<real>)
    ensures |r| == |s|
  {
    seq(|s|, i requires 0 <= i < |s| => -s[i])
  }

  /** Positions by falling remainder; equal remainders keep list order. */
  function LeftoverOrder(shares: seq<real>): (r: seq<nat>)
    ensures |r| == |shares| && InRange(r, |shares|)
  {
    StableOrder.StableOrder(Negated(Remainders(shares)))
  }

  /** What the first pass leaves over. */
  function Leftover(total: nat, shares: seq<real>): int {
    total - SumInt(Bases(shares))
  }

  predicate Proportional(total: nat, shares: seq<real>) {
    SumReal(PositiveParts(shares)) == total as real
  }

  /** One more unit for each listed position. */
  function Bump(units: seq<nat>, at: seq<nat>): (r: seq<nat>)
    requires InRange(at, |units|)
    ensures |r| == |units|
  {
    if at == [] then units
    else
      var last := at[|at| - 1];
      var r := Bump(units, at[..|at| - 1]);
      r[last := r[last] + 1]
  }

  /** Units given to each entry. */
  function Split(total: nat, shares: seq<real>): (r: seq<nat>)
    requires Proportional(total, shares)
    ensures |r| == |shares|
  {
    LeftoverFits(total, shares);
    Bump(Bases(shares), LeftoverOrder(shares)[..Leftover(total, shares)])
  }

  // ---------- the leftovers ----------

  /** How base and remainder of an entry sit around the positive part of its share. */
  lemma {:induction false} EntryFacts(shares: seq<real>, i: nat)
    requires i < |shares|
    ensures Bases(shares)[i] == Positive(shares[i]).Floor
    ensures Positive(Remainders(shares)[i]) == Positive(shares[i]) - Positive(shares[i]).Floor as real
    ensures Remainders(shares)[i] < 1.0
  {
  }

  function CountPositive(s: seq<real>, n: nat): nat
    requires n <= |s|
  {
    if n == 0 then 0 else CountPositive(s, n - 1) + (if s[n - 1] > 0.0 then 1 else 0)
  }

  ghost function PositivePositions(s: seq<real>, n: nat): (r: set<nat>)
    requires n <= |s|
    ensures |r| == CountPositive(s, n)
  {
    var r := set i: nat | i < n && s[i] > 0.0;
    assert |r| == CountPositive(s, n) by {
      if n > 0 {
        assert r == PositivePositions(s, n - 1) + (if s[n - 1] > 0.0 then {n - 1} else {});
      } else {
        assert r == {};
      }
    }
    r
  }

  /** Whole numbers below reals fall short of them by at most one each, and only where there is a remainder. */
  lemma {:induction false} RemainderMass(quotas: seq<real>, bases: seq<int>, rem: seq<real>, n: nat)
    requires n <= |quotas| == |bases| == |rem|
    requires forall i :: 0 <= i < n ==>
               && Positive(rem[i]) == quotas[i] - bases[i] as real
               && rem[i] < 1.0
    ensures 0.0 <= SumReal(quotas[..n]) - SumInt(bases[..n]) as real <= CountPositive(rem, n) as real
  {
    if n > 0 {
      RemainderMass(quotas, bases, rem, n - 1);
      assert quotas[..n][..n - 1] == quotas[..n - 1] && bases[..n][..n - 1] == bases[..n - 1];
    }
  }

  lemma {:induction false} LeftoverMass(total: nat, shares: seq<real>)
    requires Proportional(total, shares)
    ensures 0 <= Leftover(total, shares) <= |PositivePositions(Remainders(shares), |shares|)|
  {
    var n := |shares|;
    var q, b, rem := PositiveParts(shares), Bases(shares), Remainders(shares);
    forall i | 0 <= i < n
      ensures Positive(rem[i]) == q[i] - b[i] as real && rem[i] < 1.0
    {
      EntryFacts(shares, i);
    }
    RemainderMass(q, b, rem, n);
    assert q[..n] == q && b[..n] == b;
  }

  lemma {:induction false} ListedAtMost(s: seq<nat>, xs: set<nat>)
    requires forall x :: x in xs ==> x in s
    ensures |xs| <= |s|
  {
    if s != [] {
      var last := s[|s| - 1];
      assert s == s[..|s| - 1] + [last];
      ListedAtMost(s[..|s| - 1], xs - {last});
      assert xs <= (xs - {last}) + {last};
      SubsetCard(xs, (xs - {last}) + {last});
    } else if x :| x in xs {
      assert false;
    }
  }

  lemma {:induction false} SubsetCard(a: set<nat>, b: set<nat>)
    requires a <= b
    ensures |a| <= |b|
  {
    assert b == a + (b - a);
  }

  /** One pass over the remainders is enough, with every entry it serves short of its share. */
  lemma {:induction false} LeftoverFits(total: nat, shares: seq<real>)
    requires Proportional(total, shares)
    ensures 0 <= Leftover(total, shares) <= |shares|
    ensures forall k :: 0 <= k < Leftover(total, shares) ==> Remainders(shares)[LeftoverOrder(shares)[k]] > 0.0
  {
    var n := |shares|;
    var rem, order, m := Remainders(shares), LeftoverOrder(shares), Leftover(total, shares);
    var due := PositivePositions(rem, n);
    LeftoverMass(total, shares);
    ListedAtMost(order, due);
    OrderedKeys(Negated(rem), order);
    forall k | 0 <= k < m
      ensures rem[order[k]] > 0.0
    {
      if rem[order[k]] <= 0.0 {
        forall x | x in due
          ensures x in order[..k]
        {
          var j := IndexIn(order, x);
          assert order[..k][j] == x;
        }
        ListedAtMost(order[..k], due);
      }
    }
  }

  // ---------- what bumping does ----------

  lemma {:induction false} BumpSum(units: seq<nat>, at: seq<nat>)
    requires InRange(at, |units|)
    ensures SumInt(Bump(units, at)) == SumInt(units) + |at|
  {
    if at != [] {
      var front := at[..|at| - 1];
      BumpSum(units, front);
      SumIntUpdate(Bump(units, front), at[|at| - 1], 1);
    }
  }

  lemma {:induction false} BumpAt(units: seq<nat>, at: seq<nat>, i: nat)
    requires InRange(at, |units|) && i < |units|
    requires forall a, b :: 0 <= a < b < |at| ==> at[a] != at[b]
    ensures Bump(units, at)[i] == units[i] + (if i in at then 1 else 0)
  {
    if at != [] {
      var n := |at| - 1;
      BumpAt(units, at[..n], i);
      assert at == at[..n] + [at[n]];
    }
  }

  lemma {:induction false} SplitAt(total: nat, shares: seq<real>, i: nat)
    requires i < |shares| && Proportional(total, shares)
    ensures 0 <= Leftover(total, shares) <= |shares|
    ensures Split(total, shares)[i]
         == Bases(shares)[i] + (if i in LeftoverOrder(shares)[..Leftover(total, shares)] then 1 else 0)
  {
    LeftoverFits(total, shares);
    OrderedIsInjective(Negated(Remainders(shares)), LeftoverOrder(shares));
    BumpAt(Bases(shares), LeftoverOrder(shares)[..Leftover(total, shares)], i);
  }

  // ---------- theorems ----------

  /** Every unit of the total is handed out. */
  lemma {:induction false} SplitConserves(total: nat, shares: seq<real>)
    requires Proportional(total, shares)
    ensures SumInt(Split(total, shares)) == total
  {
    LeftoverFits(total, shares);
    BumpSum(Bases(shares), LeftoverOrder(shares)[..Leftover(total, shares)]);
  }

  /** Quota rule: each entry gets the floor of its exact share or, if that is not whole, the ceiling. */
  lemma {:induction false} SplitWithinQuota(total: nat, shares: seq<real>, i: nat)
    requires i < |shares| && Proportional(total, shares)
    ensures var q, u := Positive(shares[i]), Split(total, shares)[i];
            u == q.Floor || (u == q.Floor + 1 && q > q.Floor as real)
    ensures shares[i] <= 0.0 ==> Split(total, shares)[i] == 0
  {
    LeftoverFits(total, shares);
    SplitAt(total, shares, i);
    EntryFacts(shares, i);
    var served := LeftoverOrder(shares)[..Leftover(total, shares)];
    if i in served {
      var k := IndexIn(served, i);
      assert Remainders(shares)[LeftoverOrder(shares)[k]] > 0.0;
    }
  }

  /** An entry with at least the share of a later one gets at least as much. */
  lemma {:induction false} SplitMonotone(total: nat, shares: seq<real>, i: nat, j: nat)
    requires i < j < |shares| && Proportional(total, shares)
    requires shares[i] >= shares[j]
    ensures Split(total, shares)[i] >= Split(total, shares)[j]
  {
    SplitWithinQuota(total, shares, i);
    SplitWithinQuota(total, shares, j);
    if shares[j] > 0.0 && shares[i].Floor == shares[j].Floor {
      LeftoverPriority(total, shares, i, j);
    }
  }

  /** Leftovers go to the larger fraction first, and at equal fractions to the earlier entry. */
  lemma {:induction false} LeftoverPriority(total: nat, shares: seq<real>, i: nat, j: nat)
    requires i < |shares| && j < |shares| && Proportional(total, shares) && shares[i] > 0.0 && shares[j] > 0.0
    requires var fi, fj := shares[i] - shares[i].Floor as real, shares[j] - shares[j].Floor as real;
             fi > fj || (fi == fj && i < j)
    ensures Split(total, shares)[j] == shares[j].Floor + 1 ==> Split(total, shares)[i] == shares[i].Floor + 1
  {
    SplitAt(total, shares, i);
    SplitAt(total, shares, j);
    EntryFacts(shares, i);
    EntryFacts(shares, j);
    var keys := Negated(Remainders(shares));
    var order, m := LeftoverOrder(shares), Leftover(total, shares);
    assert Before(keys, i, j);
    if j in order[..m] {
      var b := IndexIn(order[..m], j);
      var a := IndexIn(order, i);
      OrderedPositions(keys, order, a, b);
      assert order[..m][a] == i;
    }
  }

  // ---------- optimality ----------

  function Abs(x: real): real {
    if x < 0.0 then -x else x
  }

  /** Total absolute distance of an integer split from the exact shares. */
  function Deviation(split: seq<int>, quotas: seq<real>): real
    requires |split| == |quotas|
  {
    if split == [] then 0.0
    else
      var n := |split| - 1;
      Deviation(split[..n], quotas[..n]) + Abs(split[n] as real - quotas[n])
  }

  /** An entry's deviation, less a price for each unit it takes. */
  function Cost(u: int, q: real, price: real): real {
    Abs(u as real - q) - price * u as real
  }

  function SplitCost(split: seq<int>, quotas: seq<real>, price: real): real
    requires |split| == |quotas|
  {
    if split == [] then 0.0
    else
      var n := |split| - 1;
      SplitCost(split[..n], quotas[..n], price) + Cost(split[n], quotas[n], price)
  }

  lemma {:induction false} CostIsPricedDeviation(split: seq<int>, quotas: seq<real>, price: real)
    requires |split| == |quotas|
    ensures SplitCost(split, quotas, price) == Deviation(split, quotas) - price * SumInt(split) as real
  {
    if split != [] {
      var n := |split| - 1;
      CostIsPricedDeviation(split[..n], quotas[..n], price);
      Distribute(price, SumInt(split[..n]), split[n]);
    }
  }

  /** Over splits of equal total, comparing costs compares deviations. */
  lemma {:induction false} CostComparesDeviation(a: seq<int>, b: seq<int>, q: seq<real>, price: real)
    requires |a| == |b| == |q| && SumInt(a) == SumInt(b)
    requires SplitCost(a, q, price) <= SplitCost(b, q, price)
    ensures Deviation(a, q) <= Deviation(b, q)
  {
    CostIsPricedDeviation(a, q, price);
    CostIsPricedDeviation(b, q, price);
  }

  lemma {:induction false} SplitCostLe(a: seq<int>, b: seq<int>, q: seq<real>, price: real)
    requires |a| == |b| == |q|
    requires forall i :: 0 <= i < |q| ==> Cost(a[i], q[i], price) <= Cost(b[i], q[i], price)
    ensures SplitCost(a, q, price) <= SplitCost(b, q, price)
  {
    if q != [] {
      SplitCostLe(a[..|a| - 1], b[..|b| - 1], q[..|q| - 1], price);
    }
  }

  lemma {:induction false} Slope(price: real, d: real)
    requires price <= 1.0 && d >= 1.0
    ensures d - price * d >= 1.0 - price
  {
    var p, e := 1.0 - price, d - 1.0;
    assert p * e >= 0.0;
    assert p * e == d - price * d - 1.0 + price;
  }

  /** The price lies on the right side of the slope between the floor of q and the next integer. */
  predicate Supports(price: real, q: real, u: int) {
    && (u == q.Floor ==> price <= 1.0 - 2.0 * (q - q.Floor as real))
    && (u == q.Floor + 1 ==> price >= 1.0 - 2.0 * (q - q.Floor as real))
  }

  /** The integer that the price supports costs no more than any other. */
  lemma {:induction false} PriceSupports(q: real, u: int, v: int, price: real)
    requires -1.0 <= price <= 1.0
    requires (u == q.Floor || u == q.Floor + 1) && Supports(price, q, u)
    ensures Cost(u, q, price) <= Cost(v, q, price)
  {
    var d := (v - u) as real;
    Distribute(price, u, v - u);
    assert u + (v - u) == v;
    if v < u {
      assert (-price) * (-d) == price * d;
      Slope(-price, -d);
    } else if v > u {
      Slope(price, d);
    }
    StepsAway(q, u, v, price, price * d);
  }

  lemma {:induction false} StepsAway(q: real, u: int, v: int, price: real, paid: real)
    requires -1.0 <= price <= 1.0
    requires (u == q.Floor || u == q.Floor + 1) && Supports(price, q, u)
    requires v < u ==> (u - v) as real - paid >= 1.0 + price
    requires v == u ==> paid == 0.0
    requires v > u ==> (v - u) as real - paid >= 1.0 - price
    ensures Abs(u as real - q) <= Abs(v as real - q) - paid
  {
  }

  /** The remainder at which the leftovers run out, as a price per unit. */
  lemma {:induction false} LeftoverPrice(total: nat, shares: seq<real>) returns (price: real)
    requires Proportional(total, shares)
    ensures -1.0 <= price <= 1.0
    ensures forall i :: 0 <= i < |shares| ==> Supports(price, Positive(shares[i]), Split(total, shares)[i])
  {
    LeftoverFits(total, shares);
    var rem := Remainders(shares);
    var order, m := LeftoverOrder(shares), Leftover(total, shares);
    OrderedKeys(Negated(rem), order);
    if m == 0 {
      price := -1.0;
    } else {
      EntryFacts(shares, order[m - 1]);
      price := 1.0 - 2.0 * rem[order[m - 1]];
    }
    forall i | 0 <= i < |shares|
      ensures Supports(price, Positive(shares[i]), Split(total, shares)[i])
    {
      SplitAt(total, shares, i);
      EntryFacts(shares, i);
      var k := IndexIn(order, i);
      if i in order[..m] {
        k := IndexIn(order[..m], i);
      }
      assert i == order[k];
    }
  }

  lemma {:induction false} SplitCostsLeast(total: nat, shares: seq<real>, other: seq<int>) returns (price: real)
    requires Proportional(total, shares) && |other| == |shares|
    ensures SplitCost(Split(total, shares), PositiveParts(shares), price) <= SplitCost(other, PositiveParts(shares), price)
  {
    price := LeftoverPrice(total, shares);
    var u, q := Split(total, shares), PositiveParts(shares);
    forall i | 0 <= i < |q|
      ensures Cost(u[i], q[i], price) <= Cost(other[i], q[i], price)
    {
      SplitWithinQuota(total, shares, i);
      PriceSupports(q[i], u[i], other[i], price);
    }
    SplitCostLe(u, other, q, price);
  }

  /** No integer split of the same total is closer to the exact shares. */
  lemma {:induction false} SplitIsOptimal(total: nat, shares: seq<real>, other: seq<int>)
    requires Proportional(total, shares)
    requires |other| == |shares| && SumInt(other) == total
    ensures Deviation(Split(total, shares), PositiveParts(shares)) <= Deviation(other, PositiveParts(shares))
  {
    SplitConserves(total, shares);
    var price := SplitCostsLeast(total, shares, other);
    CostComparesDeviation(Split(total, shares), other, PositiveParts(shares), price);
  }
}
