/** Sums over sequences, taken from the front, as the program's accumulation loops take them. */
module Sums {

  function SumInt(s: seq<int>): int {
    if s == [] then 0 else SumInt(s[..|s| - 1]) + s[|s| - 1]
  }

  function SumReal(s: seq<real>): real {
    if s == [] then 0.0 else SumReal(s[..|s| - 1]) + s[|s| - 1]
  }

  /** Adding `d` to one element adds `d` to the sum. */
  lemma {:induction false} SumIntUpdate(s: seq<int>, i: nat, d: int)
    requires i < |s|
    ensures SumInt(s[i := s[i] + d]) == SumInt(s) + d
  {
    var n := |s| - 1;
    var t := s[i := s[i] + d];
    if i == n {
      assert t[..n] == s[..n];
    } else {
      assert t[..n] == s[..n][i := s[..n][i] + d];
      SumIntUpdate(s[..n], i, d);
    }
  }

  lemma {:induction false} SumIntZero(s: seq<int>)
    requires forall i :: 0 <= i < |s| ==> s[i] == 0
    ensures SumInt(s) == 0
  {
    if s != [] {
      SumIntZero(s[..|s| - 1]);
    }
  }

  lemma {:induction false} SumRealScale(s: seq<real>, t: seq<real>, c: real)
    requires |s| == |t|
    requires forall i :: 0 <= i < |s| ==> t[i] == s[i] * c
    ensures SumReal(t) == SumReal(s) * c
  {
    if s != [] {
      var n := |s| - 1;
      SumRealScale(s[..n], t[..n], c);
      assert SumReal(s) * c == SumReal(s[..n]) * c + s[n] * c;
    }
  }

  lemma {:induction false} Distribute(price: real, x: int, y: int)
    ensures price * (x + y) as real == price * x as real + price * y as real
  {
    assert (x + y) as real == x as real + y as real;
  }
}
