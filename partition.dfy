/**
 * Grouping a sequence into a JavaScript `Map` of lists: for every element that is
 * kept, `if (!m.has(k)) m.set(k, []); m.get(k).push(v)`. A `Map` iterates its
 * entries in the order their keys were first set, so the model keeps that order
 * next to the lists themselves.
 */
module Partition {

  /** The state of such a `Map`: `keys` in insertion order, `members` the lists. */
  datatype Buckets<K, V> = Buckets(keys: seq<K>, members: map<K, seq<V>>)

  /** Every key is listed exactly once and has a list. */
  ghost predicate WellFormed<K, V>(b: Buckets<K, V>) {
    && (forall k | k in b.members :: k in b.keys)
    && (forall k | k in b.keys :: k in b.members)
    && (forall i, j :: 0 <= i < j < |b.keys| ==> b.keys[i] != b.keys[j])
  }

  /** One step of the loop: create the list on first sight of `k`, then push `v`. */
  function Push<K, V>(b: Buckets<K, V>, k: K, v: V): (r: Buckets<K, V>)
    ensures WellFormed(b) ==> WellFormed(r)
    ensures k in r.members && r.members[k] == (if k in b.members then b.members[k] else []) + [v]
    ensures r.members.Keys == b.members.Keys + {k}
    ensures forall k' | k' in b.members && k' != k :: r.members[k'] == b.members[k']
    ensures r.keys == if k in b.members then b.keys else b.keys + [k]
  {
    if k in b.members then Buckets(b.keys, b.members[k := b.members[k] + [v]])
    else Buckets(b.keys + [k], b.members[k := [v]])
  }

  /** The map the loop has built after visiting `xs` (elements not kept are skipped). */
  function GroupBy<T, K(==), V>(xs: seq<T>, keep: T -> bool, key: T -> K, val: T -> V): (b: Buckets<K, V>)
    ensures WellFormed(b)
  {
    if xs == [] then Buckets([], map[])
    else
      var b := GroupBy(xs[..|xs| - 1], keep, key, val);
      var x := xs[|xs| - 1];
      if keep(x) then Push(b, key(x), val(x)) else b
  }

  /** Reference definition of one list: the values of the kept elements with key `k`, in order. */
  function Members<T, K(==), V>(xs: seq<T>, keep: T -> bool, key: T -> K, val: T -> V, k: K): (r: seq<V>)
    ensures |r| <= |xs|
  {
    if xs == [] then []
    else
      var x := xs[|xs| - 1];
      Members(xs[..|xs| - 1], keep, key, val, k) + (if keep(x) && key(x) == k then [val(x)] else [])
  }

  /** A value is in the list of `k` exactly when some kept element with key `k` carries it. */
  lemma {:induction false} MembersElement<T, K, V>(xs: seq<T>, keep: T -> bool, key: T -> K, val: T -> V, k: K, v: V)
    ensures v in Members(xs, keep, key, val, k) <==>
            exists i :: 0 <= i < |xs| && keep(xs[i]) && key(xs[i]) == k && val(xs[i]) == v
  {
    if xs != [] {
      var pre := xs[..|xs| - 1];
      MembersElement(pre, keep, key, val, k, v);
      assert forall i :: 0 <= i < |pre| ==> pre[i] == xs[i];
    }
  }

  /** The list of `k` is empty exactly when no kept element has key `k`. */
  lemma MembersEmpty<T, K, V>(xs: seq<T>, keep: T -> bool, key: T -> K, val: T -> V, k: K)
    ensures Members(xs, keep, key, val, k) == [] <==>
            forall i :: 0 <= i < |xs| ==> !(keep(xs[i]) && key(xs[i]) == k)
  {
    var r := Members(xs, keep, key, val, k);
    if r != [] {
      MembersElement(xs, keep, key, val, k, r[0]);
    }
    forall i | 0 <= i < |xs| && keep(xs[i]) && key(xs[i]) == k
      ensures r != []
    {
      MembersElement(xs, keep, key, val, k, val(xs[i]));
    }
  }

  /** The map holds `k` exactly when some kept element has key `k`, and its list is `Members`. */
  lemma {:induction false} GroupByMembers<T, K, V>(xs: seq<T>, keep: T -> bool, key: T -> K, val: T -> V, k: K)
    ensures var b := GroupBy(xs, keep, key, val);
            && (k in b.members <==> Members(xs, keep, key, val, k) != [])
            && (k in b.members ==> b.members[k] == Members(xs, keep, key, val, k))
  {
    if xs != [] {
      GroupByMembers(xs[..|xs| - 1], keep, key, val, k);
    }
  }

  /** Index of the first kept element with key `k`. */
  ghost function FirstIndex<T, K, V>(xs: seq<T>, keep: T -> bool, key: T -> K, val: T -> V, k: K): (r: nat)
    requires Members(xs, keep, key, val, k) != []
    ensures r < |xs| && keep(xs[r]) && key(xs[r]) == k
    ensures forall i :: 0 <= i < r ==> !(keep(xs[i]) && key(xs[i]) == k)
  {
    var pre := xs[..|xs| - 1];
    if Members(pre, keep, key, val, k) != [] then FirstIndex(pre, keep, key, val, k)
    else
      MembersEmpty(pre, keep, key, val, k);
      |xs| - 1
  }

  /** Keys are listed in the order in which they first appear among the kept elements. */
  lemma {:induction false} GroupByOrder<T, K, V>(xs: seq<T>, keep: T -> bool, key: T -> K, val: T -> V, p: nat, q: nat)
    requires p < q < |GroupBy(xs, keep, key, val).keys|
    ensures var ks := GroupBy(xs, keep, key, val).keys;
            && Members(xs, keep, key, val, ks[p]) != []
            && Members(xs, keep, key, val, ks[q]) != []
            && FirstIndex(xs, keep, key, val, ks[p]) < FirstIndex(xs, keep, key, val, ks[q])
  {
    var pre := xs[..|xs| - 1];
    var x := xs[|xs| - 1];
    var b := GroupBy(pre, keep, key, val);
    var ks := GroupBy(xs, keep, key, val).keys;
    GroupByMembers(xs, keep, key, val, ks[p]);
    GroupByMembers(xs, keep, key, val, ks[q]);
    GroupByMembers(pre, keep, key, val, ks[p]);
    GroupByMembers(pre, keep, key, val, ks[q]);
    if q < |b.keys| {
      assert ks[p] == b.keys[p] && ks[q] == b.keys[q];
      GroupByOrder(pre, keep, key, val, p, q);
    } else {
      assert ks[p] == b.keys[p];
      assert ks[p] in b.members;
    }
  }
}
