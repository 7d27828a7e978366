/** Sizes of finite sets and of the sets that lists make. */
module Sizes {

  lemma SubsetSize<T>(a: set<T>, b: set<T>)
    requires a <= b
    ensures |a| <= |b|
  {
    assert b == a + (b - a);
  }

  lemma AtMostOne<T>(a: set<T>)
    requires forall j, k :: j in a && k in a ==> j == k
    ensures |a| <= 1
  {
    if a != {} {
      var j :| j in a;
      assert a == {j};
    }
  }

  ghost function Elements<T>(ks: seq<T>): set<T> {
    set m | m in ks
  }

  lemma {:induction false} DistinctSize<T>(ks: seq<T>)
    requires forall k, l :: 0 <= k < l < |ks| ==> ks[k] != ks[l]
    ensures |Elements(ks)| == |ks|
    decreases |ks|
  {
    if ks == [] {
    } else {
      var front, last := ks[..|ks| - 1], ks[|ks| - 1];
      DistinctSize(front);
      assert ks == front + [last];
      assert Elements(ks) == Elements(front) + {last};
    }
  }

  lemma {:induction false} ListSize<T>(ks: seq<T>)
    ensures |Elements(ks)| <= |ks|
    decreases |ks|
  {
    if ks == [] {
    } else {
      var front, last := ks[..|ks| - 1], ks[|ks| - 1];
      ListSize(front);
      assert ks == front + [last];
      assert Elements(ks) == Elements(front) + {last};
    }
  }
}
