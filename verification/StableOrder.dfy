/**
 The order in which a stable sort visits the elements of a list, as a list of
 original positions. Go's `sort.SliceStable` and Rust's `sort_by` both promise
 this order; StableOrderIsUnique shows that the promise leaves no choice.
 */
module StableOrder {

  /** Position `i` is visited before position `j`: smaller key, or same key and earlier. */
  predicate Before(keys: seq<real>, i: nat, j: nat)
    requires i < |keys| && j < |keys|
  {
    keys[i] < keys[j] || (keys[i] == keys[j] && i < j)
  }

  predicate InRange(order: seq<nat>, n: nat) {
    forall k :: 0 <= k < |order| ==> order[k] < n
  }

  predicate Ordered(keys: seq<real>, order: seq<nat>)
    requires InRange(order, |keys|)
  {
    forall a, b :: 0 <= a < b < |order| ==> Before(keys, order[a], order[b])
  }

  /** `order` lists every position of `keys` exactly once, in stable order. */
  ghost predicate IsStableOrder(keys: seq<real>, order: seq<nat>) {
    && |order| == |keys|
    && InRange(order, |keys|)
    && Ordered(keys, order)
    && forall i: nat :: i < |keys| ==> i in order
  }

  function Insert(keys: seq<real>, order: seq<nat>, i: nat): (r: seq<nat>)
    requires i < |keys|
    requires InRange(order, i) && Ordered(keys, order)
    ensures |r| == |order| + 1
    ensures InRange(r, i + 1) && Ordered(keys, r)
    ensures forall x :: x in r <==> x in order || x == i
  {
    if order == [] then
      [i]
    else
      var last := |order| - 1;
      if keys[order[last]] <= keys[i] then
        order + [i]
      else
        var front := Insert(keys, order[..last], i);
        assert forall k :: 0 <= k < |front| ==> Before(keys, front[k], order[last]) by {
          assert forall k :: 0 <= k < |front| ==> front[k] in front;
        }
        assert order == order[..last] + [order[last]];
        front + [order[last]]
  }

  function PrefixOrder(keys: seq<real>, n: nat): (order: seq<nat>)
    requires n <= |keys|
    ensures |order| == n
    ensures InRange(order, n) && Ordered(keys, order)
    ensures forall i: nat :: i < n ==> i in order
  {
    if n == 0 then [] else Insert(keys, PrefixOrder(keys, n - 1), n - 1)
  }

  function StableOrder(keys: seq<real>): (order: seq<nat>)
    ensures IsStableOrder(keys, order)
  {
    PrefixOrder(keys, |keys|)
  }

  lemma {:induction false} OrderedIsInjective(keys: seq<real>, order: seq<nat>)
    requires InRange(order, |keys|) && Ordered(keys, order)
    ensures forall a, b :: 0 <= a < |order| && 0 <= b < |order| && order[a] == order[b] ==> a == b
  {
    assert forall a, b :: 0 <= a < b < |order| ==> Before(keys, order[a], order[b]);
  }

  lemma {:induction false} OrderedKeys(keys: seq<real>, order: seq<nat>)
    requires InRange(order, |keys|) && Ordered(keys, order)
    ensures forall a, b :: 0 <= a <= b < |order| ==> keys[order[a]] <= keys[order[b]]
  {
    assert forall a, b :: 0 <= a < b < |order| ==> Before(keys, order[a], order[b]);
  }

  lemma {:induction false} OrderedPositions(keys: seq<real>, order: seq<nat>, a: nat, b: nat)
    requires InRange(order, |keys|) && Ordered(keys, order)
    requires a < |order| && b < |order| && Before(keys, order[a], order[b])
    ensures a < b
  {
  }

  /** Any list with the stable sort's promise is the same list. */
  lemma {:induction false} StableOrderIsUnique(keys: seq<real>, p: seq<nat>, q: seq<nat>)
    requires IsStableOrder(keys, p) && IsStableOrder(keys, q)
    ensures p == q
  {
    forall k | 0 <= k < |p|
      ensures p[k] == q[k]
    {
      SamePosition(keys, p, q, k);
    }
  }

  lemma {:induction false} SamePosition(keys: seq<real>, p: seq<nat>, q: seq<nat>, k: nat)
    requires IsStableOrder(keys, p) && IsStableOrder(keys, q)
    requires k < |p|
    ensures p[k] == q[k]
  {
    forall j | 0 <= j < k
      ensures p[j] == q[j]
    {
      SamePosition(keys, p, q, j);
    }
    var a := IndexIn(p, q[k]);
    var b := IndexIn(q, p[k]);
    OrderedIsInjective(keys, p);
    OrderedIsInjective(keys, q);
    assert a >= k && b >= k;
  }

  lemma {:induction false} IndexIn(s: seq<nat>, x: nat) returns (k: nat)
    requires x in s
    ensures k < |s| && s[k] == x
  {
    k :| k < |s| && s[k] == x;
  }
}
