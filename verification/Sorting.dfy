/** sort.Slice, as the renderer uses it: a slice of distinct indices is sorted by their keys. */
module Sorting {

  type Before<!T> = (T, T) -> bool

  /** A strict weak order: never both ways, and "not before" is transitive. */
  ghost predicate IsWeakOrder<T(!new)>(before: Before<T>) {
    && (forall a, b :: before(a, b) ==> !before(b, a))
    && (forall a, b, c :: !before(a, b) && !before(b, c) ==> !before(a, c))
  }

  /** Distinct indices into `keys`, none before an earlier one. Equal keys may fall either way. */
  ghost predicate InOrder<T>(order: seq<nat>, keys: seq<T>, before: Before<T>) {
    && (forall k :: 0 <= k < |order| ==> order[k] < |keys|)
    && (forall k, l :: 0 <= k < l < |order| ==> order[k] != order[l] && !before(keys[order[l]], keys[order[k]]))
  }

  /** Puts index `i` in front of the first index whose key it comes before. */
  function Insert<T>(order: seq<nat>, keys: seq<T>, before: Before<T>, i: nat): (r: seq<nat>)
    requires i < |keys| && forall k :: 0 <= k < |order| ==> order[k] < |keys|
    ensures |r| == |order| + 1 && forall j :: j in r <==> j == i || j in order
  {
    if order == [] then [i]
    else if before(keys[i], keys[order[0]]) then [i] + order
    else [order[0]] + Insert(order[1..], keys, before, i)
  }

  /** A key in front of an ordered list whose first key it comes before. */
  lemma PrependKeepsOrder<T(!new)>(order: seq<nat>, keys: seq<T>, before: Before<T>, i: nat)
    requires IsWeakOrder(before) && InOrder(order, keys, before) && i < |keys| && i !in order
    requires order != [] && before(keys[i], keys[order[0]])
    ensures InOrder([i] + order, keys, before)
  {
    var r := [i] + order;
    forall l | 0 <= l < |order| ensures order[l] != i && !before(keys[order[l]], keys[i]) {
      var first, here := keys[order[0]], keys[order[l]];
      assert !before(here, first);
      assert !before(first, keys[i]);
    }
    forall k, l | 0 <= k < l < |r| ensures r[k] != r[l] && !before(keys[r[l]], keys[r[k]]) {
      assert r[l] == order[l - 1];
      if k > 0 {
        assert r[k] == order[k - 1];
      }
    }
  }

  /** A first key in front of an ordered list that holds nothing before it. */
  lemma ConsKeepsOrder<T>(head: nat, rest: seq<nat>, keys: seq<T>, before: Before<T>)
    requires InOrder(rest, keys, before) && head < |keys|
    requires forall l :: 0 <= l < |rest| ==> rest[l] != head && !before(keys[rest[l]], keys[head])
    ensures InOrder([head] + rest, keys, before)
  {
    var r := [head] + rest;
    forall k, l | 0 <= k < l < |r| ensures r[k] != r[l] && !before(keys[r[l]], keys[r[k]]) {
      assert r[l] == rest[l - 1];
      if k > 0 {
        assert r[k] == rest[k - 1];
      }
    }
  }

  lemma TailInOrder<T>(order: seq<nat>, keys: seq<T>, before: Before<T>)
    requires InOrder(order, keys, before) && order != []
    ensures InOrder(order[1..], keys, before)
    ensures forall j :: j in order[1..] ==> j < |keys| && j != order[0] && !before(keys[j], keys[order[0]])
  {
    forall j | j in order[1..] ensures j < |keys| && j != order[0] && !before(keys[j], keys[order[0]]) {
      var m :| 0 <= m < |order[1..]| && order[1..][m] == j;
      assert order[m + 1] == j;
    }
  }

  lemma {:induction false} InsertKeepsOrder<T(!new)>(order: seq<nat>, keys: seq<T>, before: Before<T>, i: nat)
    requires IsWeakOrder(before) && InOrder(order, keys, before) && i < |keys| && i !in order
    ensures InOrder(Insert(order, keys, before, i), keys, before)
    decreases |order|
  {
    if order == [] {
    } else if before(keys[i], keys[order[0]]) {
      PrependKeepsOrder(order, keys, before, i);
    } else {
      hide IsWeakOrder, InOrder;
      TailInOrder(order, keys, before);
      InsertKeepsOrder(order[1..], keys, before, i);
      var rest := Insert(order[1..], keys, before, i);
      assert forall l :: 0 <= l < |rest| ==> rest[l] in rest;
      ConsKeepsOrder(order[0], rest, keys, before);
    }
  }

  method SortIndices<T(!new)>(idxs: seq<nat>, keys: seq<T>, before: Before<T>) returns (order: seq<nat>)
    requires IsWeakOrder(before)
    requires forall k :: 0 <= k < |idxs| ==> idxs[k] < |keys|
    requires forall k, l :: 0 <= k < l < |idxs| ==> idxs[k] != idxs[l]
    ensures |order| == |idxs| && InOrder(order, keys, before)
    ensures forall j :: j in order <==> j in idxs
  {
    hide IsWeakOrder;
    order := [];
    for i := 0 to |idxs|
      invariant |order| == i && InOrder(order, keys, before)
      invariant forall j :: j in order <==> j in idxs[..i]
    {
      InsertKeepsOrder(order, keys, before, idxs[i]);
      order := Insert(order, keys, before, idxs[i]);
    }
    assert idxs[..|idxs|] == idxs;
  }
}
