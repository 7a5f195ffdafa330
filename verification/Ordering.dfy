/** `sorted(range(n), key=...)`; what uses an order mostly does not care how ties were broken. */
module Ordering {

  /** `order` lists each of the indices below n once. */
  ghost predicate Lists(order: seq<nat>, n: nat) {
    && |order| == n
    && (forall k :: 0 <= k < |order| ==> order[k] < n)
    && (forall j, k :: 0 <= j < k < |order| ==> order[j] != order[k])
    && (forall i: nat :: i < n ==> i in order)
  }

  ghost predicate SortedBy(order: seq<nat>, keys: seq<real>) {
    && (forall k :: 0 <= k < |order| ==> order[k] < |keys|)
    && (forall j, k :: 0 <= j < k < |order| ==> keys[order[j]] <= keys[order[k]])
  }

  /** `order` lists every index of `keys` once, in non-decreasing key order. */
  ghost predicate IsOrder(order: seq<nat>, keys: seq<real>) {
    Lists(order, |keys|) && SortedBy(order, keys)
  }

  /** Equal keys keep the order of their indices. */
  ghost predicate Stable(order: seq<nat>, keys: seq<real>) {
    forall j, k :: 0 <= j < k < |order| && order[j] < |keys| && order[k] < |keys| ==>
      keys[order[j]] == keys[order[k]] ==> order[j] < order[k]
  }

  method SortIndices(keys: seq<real>) returns (order: seq<nat>)
    ensures IsOrder(order, keys) && Stable(order, keys)
  {
    order := [];
    for n := 0 to |keys|
      invariant Lists(order, n) && SortedBy(order, keys) && Stable(order, keys)
    {
      var at := n;
      while at > 0 && keys[n] < keys[order[at - 1]]
        invariant 0 <= at <= n
        invariant forall k :: at <= k < n ==> keys[n] < keys[order[k]]
      {
        at := at - 1;
      }
      InsertLists(order, n, at);
      InsertSorted(order, keys, n, at);
      InsertStable(order, keys, n, at);
      order := Insert(order, n, at);
    }
  }

  function Insert(order: seq<nat>, n: nat, at: nat): seq<nat>
    requires at <= |order|
  {
    order[..at] + [n] + order[at..]
  }

  lemma InsertLists(order: seq<nat>, n: nat, at: nat)
    requires Lists(order, n) && at <= n
    ensures Lists(Insert(order, n, at), n + 1)
  {
    var next := Insert(order, n, at);
    assert forall k :: 0 <= k < |next| ==> next[k] == if k < at then order[k] else if k == at then n else order[k - 1];
    forall i: nat | i < n + 1 ensures i in next {
      if i == n {
        assert next[at] == n;
      } else {
        assert i in order;
        var k :| 0 <= k < |order| && order[k] == i;
        assert next[if k < at then k else k + 1] == i;
      }
    }
  }

  lemma InsertSorted(order: seq<nat>, keys: seq<real>, n: nat, at: nat)
    requires Lists(order, n) && SortedBy(order, keys) && n < |keys| && at <= n
    requires at > 0 ==> keys[order[at - 1]] <= keys[n]
    requires forall k :: at <= k < n ==> keys[n] < keys[order[k]]
    ensures SortedBy(Insert(order, n, at), keys)
  {
    var next := Insert(order, n, at);
    assert forall k :: 0 <= k < |next| ==> next[k] == if k < at then order[k] else if k == at then n else order[k - 1];
    forall j, k | 0 <= j < k < |next| ensures keys[next[j]] <= keys[next[k]] {
      if j < at && k == at { assert keys[order[j]] <= keys[order[at - 1]]; }
    }
  }

  lemma InsertStable(order: seq<nat>, keys: seq<real>, n: nat, at: nat)
    requires Lists(order, n) && Stable(order, keys) && n < |keys| && at <= n
    requires forall k :: at <= k < n ==> keys[n] < keys[order[k]]
    ensures Stable(Insert(order, n, at), keys)
  {
    var next := Insert(order, n, at);
    assert forall k :: 0 <= k < |next| ==> next[k] == if k < at then order[k] else if k == at then n else order[k - 1];
  }

  /** An injective listing of `hi - lo` indices names that many of them. */
  lemma {:induction false} ImageSize(order: seq<nat>, lo: nat, hi: nat)
    requires lo <= hi <= |order|
    requires forall j, k :: 0 <= j < k < |order| ==> order[j] != order[k]
    ensures |set k | lo <= k < hi :: order[k]| == hi - lo
    decreases hi - lo
  {
    var all := set k | lo <= k < hi :: order[k];
    if lo == hi {
      assert all == {};
    } else {
      var rest := set k | lo <= k < hi - 1 :: order[k];
      ImageSize(order, lo, hi - 1);
      assert all == rest + {order[hi - 1]};
      assert order[hi - 1] !in rest;
    }
  }
}
