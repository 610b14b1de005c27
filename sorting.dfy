/**
 * `Array.prototype.sort` with a comparator, as the background script uses it. The
 * language requires the sort to be stable, and every stable sort leaves the same
 * order, so the model sorts by insertion: an element goes after every element
 * that is not above it.
 */
module Sorting {

  /** `le(x, y)`: the comparator does not put `y` before `x` (it returns `<= 0`). */
  ghost predicate TotalPreorder<T(!new)>(le: (T, T) -> bool) {
    && (forall x, y :: le(x, y) || le(y, x))
    && (forall x, y, z :: le(x, y) && le(y, z) ==> le(x, z))
  }

  ghost predicate SortedBy<T>(s: seq<T>, le: (T, T) -> bool) {
    forall i, j :: 0 <= i < j < |s| ==> le(s[i], s[j])
  }

  /** Puts `x` after the last element of `s` that is not above it. */
  function Insert<T>(s: seq<T>, x: T, le: (T, T) -> bool): (r: seq<T>)
    ensures |r| == |s| + 1
  {
    if s == [] || le(s[|s| - 1], x) then s + [x]
    else Insert(s[..|s| - 1], x, le) + [s[|s| - 1]]
  }

  /** The order a stable sort by `le` leaves. */
  function InsertionSorted<T>(s: seq<T>, le: (T, T) -> bool): (r: seq<T>)
    ensures |r| == |s|
  {
    if s == [] then []
    else Insert(InsertionSorted(s[..|s| - 1], le), s[|s| - 1], le)
  }

  lemma {:induction false} InsertPermutes<T>(s: seq<T>, x: T, le: (T, T) -> bool)
    ensures multiset(Insert(s, x, le)) == multiset(s) + multiset{x}
  {
    if s != [] && !le(s[|s| - 1], x) {
      var init := s[..|s| - 1];
      InsertPermutes(init, x, le);
      assert s == init + [s[|s| - 1]];
    }
  }

  /** A sort only reorders: the result is a permutation of the input. */
  lemma {:induction false} SortPermutes<T>(s: seq<T>, le: (T, T) -> bool)
    ensures multiset(InsertionSorted(s, le)) == multiset(s)
  {
    if s != [] {
      var init := s[..|s| - 1];
      SortPermutes(init, le);
      InsertPermutes(InsertionSorted(init, le), s[|s| - 1], le);
      assert s == init + [s[|s| - 1]];
    }
  }

  lemma {:induction false} InsertKeepsSorted<T(!new)>(s: seq<T>, x: T, le: (T, T) -> bool)
    requires TotalPreorder(le) && SortedBy(s, le)
    ensures SortedBy(Insert(s, x, le), le)
  {
    if s != [] && !le(s[|s| - 1], x) {
      var init := s[..|s| - 1];
      InsertKeepsSorted(init, x, le);
      var r := Insert(init, x, le);
      InsertPermutes(init, x, le);
      // every element of r is an element of init or x, and the last element of s is above both
      forall i | 0 <= i < |r|
        ensures le(r[i], s[|s| - 1])
      {
        assert r[i] in multiset(r);
        if r[i] != x {
          assert r[i] in multiset(init);
          var k :| 0 <= k < |init| && init[k] == r[i];
        }
      }
    }
  }

  /** A stable sort returns its input in ascending order. */
  lemma {:induction false} SortedBySort<T(!new)>(s: seq<T>, le: (T, T) -> bool)
    requires TotalPreorder(le)
    ensures SortedBy(InsertionSorted(s, le), le)
  {
    if s != [] {
      SortedBySort(s[..|s| - 1], le);
      InsertKeepsSorted(InsertionSorted(s[..|s| - 1], le), s[|s| - 1], le);
    }
  }

  /** Input already in order comes back unchanged. */
  lemma {:induction false} SortOfSorted<T>(s: seq<T>, le: (T, T) -> bool)
    requires SortedBy(s, le)
    ensures InsertionSorted(s, le) == s
  {
    if s != [] {
      var init := s[..|s| - 1];
      assert SortedBy(init, le) by {
        forall i, j | 0 <= i < j < |init| ensures le(init[i], init[j]) {
          assert init[i] == s[i] && init[j] == s[j];
        }
      }
      SortOfSorted(init, le);
      assert s == init + [s[|s| - 1]];
      if init != [] {
        assert le(s[|s| - 2], s[|s| - 1]);
      }
      assert Insert(init, s[|s| - 1], le) == s;
    }
  }

  /** The elements of `s` that `le` ranks equal to `x`, in their order in `s`. */
  function Equivalents<T>(s: seq<T>, x: T, le: (T, T) -> bool): (r: seq<T>)
    ensures forall y :: y in r ==> y in s && le(y, x) && le(x, y)
  {
    if s == [] then []
    else
      var y := s[|s| - 1];
      Equivalents(s[..|s| - 1], x, le) + (if le(y, x) && le(x, y) then [y] else [])
  }

  /** `y` and `z` are not both in the class of `x`. */
  ghost predicate NotBothEquivalent<T>(y: T, z: T, x: T, le: (T, T) -> bool) {
    !(le(y, x) && le(x, y)) || !(le(z, x) && le(x, z))
  }

  /**
   * Inserting `y` puts it after every element equivalent to it, so it joins its
   * class last (given that nothing ranked above `y` is in its class).
   */
  lemma {:induction false} InsertEquivalents<T>(s: seq<T>, y: T, x: T, le: (T, T) -> bool)
    requires forall z | z in s && !le(z, y) :: NotBothEquivalent(y, z, x, le)
    ensures Equivalents(Insert(s, y, le), x, le)
            == Equivalents(s, x, le) + (if le(y, x) && le(x, y) then [y] else [])
  {
    if s == [] || le(s[|s| - 1], y) {
      EquivalentsSnoc(s, y, x, le);
    } else {
      var init, last := s[..|s| - 1], s[|s| - 1];
      assert s == init + [last];
      assert forall z | z in init :: z in s;
      InsertEquivalents(init, y, x, le);
      InsertEquivalentsStep(init, last, y, x, le);
    }
  }

  /** The step of the induction: an element ranked above `y` stays after it. */
  lemma InsertEquivalentsStep<T>(init: seq<T>, last: T, y: T, x: T, le: (T, T) -> bool)
    requires !le(last, y) && NotBothEquivalent(y, last, x, le)
    requires Equivalents(Insert(init, y, le), x, le)
             == Equivalents(init, x, le) + (if le(y, x) && le(x, y) then [y] else [])
    ensures Equivalents(Insert(init + [last], y, le), x, le)
            == Equivalents(init + [last], x, le) + (if le(y, x) && le(x, y) then [y] else [])
  {
    var s := init + [last];
    var a := Insert(init, y, le);
    var e := Equivalents(init, x, le);
    var ey := if le(y, x) && le(x, y) then [y] else [];
    var el := if le(last, x) && le(x, last) then [last] else [];
    assert s[..|s| - 1] == init && s[|s| - 1] == last;
    assert Insert(s, y, le) == a + [last];
    EquivalentsSnoc(a, last, x, le);
    EquivalentsSnoc(init, last, x, le);
    if ey == [] {
      assert e + ey == e && (e + el) + ey == e + el;
    } else {
      assert el == [];
      assert (e + ey) + el == e + ey && e + el == e;
    }
  }

  lemma EquivalentsSnoc<T>(s: seq<T>, y: T, x: T, le: (T, T) -> bool)
    ensures Equivalents(s + [y], x, le) == Equivalents(s, x, le) + (if le(y, x) && le(x, y) then [y] else [])
  {
    assert (s + [y])[..|s|] == s;
  }

  /**
   * The sort is stable: elements that `le` ranks equal keep their relative order.
   * This is what `Array.prototype.sort` promises, and it fixes the result.
   */
  lemma {:induction false} SortIsStable<T(!new)>(s: seq<T>, x: T, le: (T, T) -> bool)
    requires TotalPreorder(le)
    ensures Equivalents(InsertionSorted(s, le), x, le) == Equivalents(s, x, le)
  {
    if s != [] {
      var init, y := s[..|s| - 1], s[|s| - 1];
      SortIsStable(init, x, le);
      forall z | !le(z, y)
        ensures NotBothEquivalent(y, z, x, le)
      {
      }
      InsertEquivalents(InsertionSorted(init, le), y, x, le);
    }
  }

  /** Sorts `a` in place by insertion, shifting larger elements one slot right. */
  method SortInPlace<T>(a: array<T>, le: (T, T) -> bool)
    modifies a
    ensures a[..] == InsertionSorted(old(a[..]), le)
  {
    var i := 0;
    while i < a.Length
      invariant 0 <= i <= a.Length
      invariant a[..i] == InsertionSorted(old(a[..])[..i], le)
      invariant a[i..] == old(a[..])[i..]
    {
      ghost var before := a[..];
      InsertAt(a, i, le);
      assert old(a[..])[..i + 1] == old(a[..])[..i] + [before[i]];
      assert a[i + 1..] == before[i + 1..];
      i := i + 1;
    }
    assert a[..] == a[..a.Length];
    assert old(a[..]) == old(a[..])[..a.Length];
  }

  /** One pass of the insertion sort: moves `a[i]` into the sorted prefix `a[..i]`. */
  method InsertAt<T>(a: array<T>, i: nat, le: (T, T) -> bool)
    requires i < a.Length
    modifies a
    ensures a[..i + 1] == Insert(old(a[..i]), old(a[i]), le)
    ensures a[i + 1..] == old(a[i + 1..])
  {
    var x := a[i];
    ghost var sorted := a[..i];
    var j := i;
    while j > 0 && !le(a[j - 1], x)
      invariant 0 <= j <= i
      invariant a[..j] == sorted[..j]
      invariant a[j + 1..i + 1] == sorted[j..]
      invariant a[i + 1..] == old(a[i + 1..])
      invariant Insert(sorted, x, le) == Insert(sorted[..j], x, le) + sorted[j..]
    {
      InsertShift(sorted, x, j, le);
      a[j] := a[j - 1];
      j := j - 1;
    }
    a[j] := x;
    assert a[..i + 1] == sorted[..j] + [x] + sorted[j..];
  }

  lemma InsertShift<T>(s: seq<T>, x: T, j: nat, le: (T, T) -> bool)
    requires 0 < j <= |s| && !le(s[j - 1], x)
    ensures Insert(s[..j], x, le) + s[j..] == Insert(s[..j - 1], x, le) + s[j - 1..]
  {
    assert s[..j][..j - 1] == s[..j - 1];
    assert s[j - 1..] == [s[j - 1]] + s[j..];
  }
}
