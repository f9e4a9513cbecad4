/** Counting facts about finite sets, used for pigeonhole arguments. */
module Finite {

  datatype Option<+T> = None | Some(value: T)

  /** No element occurs twice. */
  ghost predicate Distinct<T>(s: seq<T>) {
    forall i, j :: 0 <= i < j < |s| ==> s[i] != s[j]
  }

  ghost function Below(n: nat): (r: set<nat>)
    ensures forall x: nat :: x in r <==> x < n
    ensures |r| == n
  {
    if n == 0 then {} else Below(n - 1) + {n - 1}
  }

  lemma SubsetBound(a: set<nat>, n: nat)
    requires forall x: nat :: x in a ==> x < n
    ensures |a| <= n
    ensures |a| == n ==> a == Below(n)
  {
    var b := Below(n);
    assert a <= b;
    assert b == a + (b - a);
    assert |b| == |a| + |b - a|;
    if |a| == n { assert b - a == {}; }
  }

  ghost function Elements<T(!new)>(w: seq<T>): (r: set<T>)
    ensures forall x :: x in r <==> x in w
    ensures (forall i, j :: 0 <= i < j < |w| ==> w[i] != w[j]) ==> |r| == |w|
  {
    if w == [] then {} else
      var rest := w[..|w| - 1];
      assert w == rest + [w[|w| - 1]];
      Elements(rest) + {w[|w| - 1]}
  }

  lemma ElementsSnoc<T(!new)>(w: seq<T>, x: T)
    ensures Elements(w + [x]) == Elements(w) + {x}
    ensures Elements<T>([]) == {}
  {
  }

  /** `n` different numbers below `n` are all of them. */
  lemma DistinctIsOnto(order: seq<nat>, n: nat, j: nat)
    requires |order| == n && Distinct(order) && j < n && forall k :: 0 <= k < n ==> order[k] < n
    ensures j in order
  {
    SubsetBound(Elements(order), n);
    assert j in Below(n);
  }
}
