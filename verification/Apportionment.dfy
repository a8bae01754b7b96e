/**
 What `assignReplicas` (workplane/internal/machine/scheduler.go:167-217) gives each entry of
 a list of scores: the largest-remainder split of the proportional shares, or one each when
 no score is positive. Scores are exact reals.
 */
module Apportionment {
  import opened Basics
  import opened Sums
  import opened StableOrder
  import opened LargestRemainder

  /** The sum the Go loop accumulates: only positive scores enter it. */
  function ScoreSum(scores: seq<real>): real {
    SumReal(PositiveParts(scores))
  }

  predicate SomePositive(scores: seq<real>) {
    exists i :: 0 <= i < |scores| && scores[i] > 0.0
  }

  function Share(score: real, sum: real, total: nat): real
    requires sum > 0.0
  {
    score / sum * (total as real)
  }

  function Shares(total: nat, scores: seq<real>): (r: seq<real>)
    requires ScoreSum(scores) > 0.0
    ensures |r| == |scores|
  {
    seq(|scores|, i requires 0 <= i < |scores| => Share(scores[i], ScoreSum(scores), total))
  }

  function Zeros(n: nat): (r: seq<nat>)
    ensures |r| == n
  {
    seq(n, i => 0)
  }

  function Upto(n: nat): (r: seq<nat>)
    ensures |r| == n && InRange(r, n)
  {
    seq(n, i requires 0 <= i < n => i)
  }

  /** Replicas given to each list entry. */
  function Units(total: nat, scores: seq<real>): (r: seq<nat>)
    ensures |r| == |scores|
  {
    if ScoreSum(scores) <= 0.0 then
      Bump(Zeros(|scores|), Upto(Min(total, |scores|)))
    else
      SharesAreProportional(total, scores);
      Split(total, Shares(total, scores))
  }

  /** The sum in the scores themselves: each positive score enters it once, and nothing else. */
  lemma {:induction false} ScoreSumInScores(scores: seq<real>, x: real)
    ensures ScoreSum([]) == 0.0
    ensures ScoreSum(scores + [x]) == ScoreSum(scores) + (if x > 0.0 then x else 0.0)
  {
    var parts := PositiveParts(scores + [x]);
    assert parts[..|scores|] == PositiveParts(scores);
    assert PositiveParts([]) == [];
  }

  // ---------- the shares ----------

  lemma {:induction false} ScoreSumPositive(scores: seq<real>)
    ensures ScoreSum(scores) >= 0.0
    ensures ScoreSum(scores) > 0.0 <==> SomePositive(scores)
  {
    if scores != [] {
      var n := |scores| - 1;
      ScoreSumPositive(scores[..n]);
      assert PositiveParts(scores)[..n] == PositiveParts(scores[..n]);
      if SomePositive(scores[..n]) {
        var i :| 0 <= i < n && scores[..n][i] > 0.0;
        assert scores[i] > 0.0;
      }
      if SomePositive(scores) && scores[n] <= 0.0 {
        var i :| 0 <= i <= n && scores[i] > 0.0;
        assert scores[..n][i] > 0.0;
      }
    }
  }

  /** An exact share is the score's part of the sum, times the total. */
  lemma {:induction false} ShareInScores(score: real, sum: real, total: nat)
    requires sum > 0.0
    ensures Share(score, sum, total) == score / sum * (total as real)
    ensures Share(score, sum, total) * sum == score * (total as real)
  {
  }

  lemma {:induction false} ShareAsProduct(score: real, sum: real, total: nat)
    requires sum > 0.0
    ensures Share(score, sum, total) == score * (total as real / sum)
  {
  }

  lemma {:induction false} ShareMonotone(a: real, b: real, sum: real, total: nat)
    requires sum > 0.0 && a >= b
    ensures Share(a, sum, total) >= Share(b, sum, total)
  {
    ShareAsProduct(a, sum, total);
    ShareAsProduct(b, sum, total);
    var c := total as real / sum;
    assert c >= 0.0;
    assert a * c - b * c == (a - b) * c;
  }

  /** Zero and negative scores have zero and negative shares, and taking positive parts commutes with sharing. */
  lemma {:induction false} ShareSign(score: real, sum: real, total: nat)
    requires sum > 0.0
    ensures score <= 0.0 ==> Share(score, sum, total) <= 0.0
    ensures Positive(Share(score, sum, total)) == Share(Positive(score), sum, total)
  {
    ShareAsProduct(score, sum, total);
    ShareAsProduct(0.0, sum, total);
    ShareMonotone(Positive(score), 0.0, sum, total);
    if score <= 0.0 {
      ShareMonotone(0.0, score, sum, total);
    }
  }

  lemma {:induction false} ScaledSum(parts: seq<real>, sum: real, total: nat, shares: seq<real>)
    requires sum > 0.0 && SumReal(parts) == sum && |shares| == |parts|
    requires forall i :: 0 <= i < |parts| ==> shares[i] == Share(parts[i], sum, total)
    ensures SumReal(shares) == total as real
  {
    var c := total as real / sum;
    assert sum * c == total as real;
    forall i | 0 <= i < |parts|
      ensures shares[i] == parts[i] * c
    {
      ShareAsProduct(parts[i], sum, total);
    }
    SumRealScale(parts, shares, c);
  }

  /** The positive shares add up to the total. */
  lemma {:induction false} SharesAreProportional(total: nat, scores: seq<real>)
    requires ScoreSum(scores) > 0.0
    ensures Proportional(total, Shares(total, scores))
  {
    var sum, shares := ScoreSum(scores), Shares(total, scores);
    forall i | 0 <= i < |scores|
      ensures PositiveParts(shares)[i] == Share(PositiveParts(scores)[i], sum, total)
    {
      ShareSign(scores[i], sum, total);
    }
    ScaledSum(PositiveParts(scores), sum, total, PositiveParts(shares));
  }

  /** The exact share an entry is due: zero for zero and negative scores. */
  function Quota(total: nat, scores: seq<real>, i: nat): real
    requires i < |scores| && ScoreSum(scores) > 0.0
  {
    Share(Positive(scores[i]), ScoreSum(scores), total)
  }

  function Quotas(total: nat, scores: seq<real>): (r: seq<real>)
    requires ScoreSum(scores) > 0.0
    ensures |r| == |scores|
  {
    seq(|scores|, i requires 0 <= i < |scores| => Quota(total, scores, i))
  }

  lemma {:induction false} QuotasArePositiveShares(total: nat, scores: seq<real>)
    requires ScoreSum(scores) > 0.0
    ensures Quotas(total, scores) == PositiveParts(Shares(total, scores))
  {
    forall i | 0 <= i < |scores|
      ensures Quotas(total, scores)[i] == PositiveParts(Shares(total, scores))[i]
    {
      ShareSign(scores[i], ScoreSum(scores), total);
    }
  }

  // ---------- what the split achieves ----------

  lemma {:induction false} FallbackAt(total: nat, scores: seq<real>, i: nat)
    requires i < |scores| && ScoreSum(scores) <= 0.0
    ensures Units(total, scores)[i] == if i < total then 1 else 0
  {
    var at := Upto(Min(total, |scores|));
    BumpAt(Zeros(|scores|), at, i);
    assert i < |at| ==> at[i] == i;
  }

  /** Every replica is placed when some score is positive; otherwise one per entry until they run out. */
  lemma {:induction false} Conservation(total: nat, scores: seq<real>)
    ensures SumInt(Units(total, scores))
         == if SomePositive(scores) then total else Min(total, |scores|)
  {
    ScoreSumPositive(scores);
    if ScoreSum(scores) > 0.0 {
      SharesAreProportional(total, scores);
      SplitConserves(total, Shares(total, scores));
    } else {
      SumIntZero(Zeros(|scores|));
      BumpSum(Zeros(|scores|), Upto(Min(total, |scores|)));
    }
  }

  /** Quota rule: each entry gets the floor of its exact share, or the ceiling. */
  lemma {:induction false} QuotaRule(total: nat, scores: seq<real>, i: nat)
    requires i < |scores| && SomePositive(scores)
    ensures ScoreSum(scores) > 0.0
    ensures var q, u := Quota(total, scores, i), Units(total, scores)[i];
            u == q.Floor || (u == q.Floor + 1 && q > q.Floor as real)
    ensures scores[i] <= 0.0 ==> Units(total, scores)[i] == 0
  {
    ScoreSumPositive(scores);
    SharesAreProportional(total, scores);
    SplitWithinQuota(total, Shares(total, scores), i);
    ShareSign(scores[i], ScoreSum(scores), total);
  }

  ghost predicate Falling(scores: seq<real>) {
    forall i, j :: 0 <= i < j < |scores| ==> scores[i] >= scores[j]
  }

  /** Along a list sorted by falling score nobody gets more than an entry ahead. */
  lemma {:induction false} Monotone(total: nat, scores: seq<real>, i: nat, j: nat)
    requires i < j < |scores| && Falling(scores)
    ensures Units(total, scores)[i] >= Units(total, scores)[j]
  {
    if ScoreSum(scores) <= 0.0 {
      FallbackAt(total, scores, i);
      FallbackAt(total, scores, j);
    } else {
      SharesAreProportional(total, scores);
      ShareMonotone(scores[i], scores[j], ScoreSum(scores), total);
      SplitMonotone(total, Shares(total, scores), i, j);
    }
  }

  /** The first entry always gets a replica. */
  lemma {:induction false} TopIsServed(total: nat, scores: seq<real>)
    requires total >= 1 && scores != [] && Falling(scores)
    ensures Units(total, scores)[0] >= 1
  {
    Conservation(total, scores);
    forall i | 0 < i < |scores|
      ensures Units(total, scores)[0] >= Units(total, scores)[i]
    {
      Monotone(total, scores, 0, i);
    }
    if Units(total, scores)[0] == 0 {
      SumIntZero(Units(total, scores));
    }
  }

  /** No integer split of the same total is closer to the exact proportional shares. */
  lemma {:induction false} Optimal(total: nat, scores: seq<real>, other: seq<int>)
    requires SomePositive(scores)
    requires |other| == |scores| && SumInt(other) == total
    ensures ScoreSum(scores) > 0.0
    ensures Deviation(Units(total, scores), Quotas(total, scores)) <= Deviation(other, Quotas(total, scores))
  {
    ScoreSumPositive(scores);
    SharesAreProportional(total, scores);
    QuotasArePositiveShares(total, scores);
    SplitIsOptimal(total, Shares(total, scores), other);
  }

  function Fraction(x: real): real {
    x - x.Floor as real
  }

  lemma {:induction false} SharePositive(score: real, sum: real, total: nat)
    requires score > 0.0 && sum > 0.0 && total > 0
    ensures Share(score, sum, total) > 0.0
  {
    assert score / sum > 0.0;
  }

  /** Leftovers go to the larger fraction of an exact share first, and at equal fractions to the earlier entry. */
  lemma {:induction false} UnitsPriority(total: nat, scores: seq<real>, i: nat, j: nat, share: real, share': real)
    requires i < |scores| && j < |scores| && scores[i] > 0.0 && scores[j] > 0.0 && ScoreSum(scores) > 0.0
    requires share == Share(scores[i], ScoreSum(scores), total) && share' == Share(scores[j], ScoreSum(scores), total)
    requires Fraction(share) > Fraction(share') || (Fraction(share) == Fraction(share') && i < j)
    ensures Units(total, scores)[j] == share'.Floor + 1 ==> Units(total, scores)[i] == share.Floor + 1
  {
    var shares := Shares(total, scores);
    SharesAreProportional(total, scores);
    assert shares[i] == share && shares[j] == share';
    if total > 0 {
      SharePositive(scores[i], ScoreSum(scores), total);
      SharePositive(scores[j], ScoreSum(scores), total);
      LeftoverPriority(total, shares, i, j);
    } else {
      SplitWithinQuota(total, shares, j);
      ShareInScores(scores[j], ScoreSum(scores), 0);
    }
  }
}
