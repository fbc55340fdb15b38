/** `Array.prototype.sort(compare)` as both client pages use it: the comparator
    returns a negative, zero or positive number, and the sort is stable, so an
    element is moved in front of an earlier one only when the comparator says
    the earlier one is strictly greater. The functional `InsertionSort` is the
    specification; `SortInPlace` is the in-place array algorithm proved equal to it. */
module Sorting {

  /** The conditions a comparator must meet for the sort to be well defined:
      "a may stay before b" (cmp(a, b) <= 0) is total and transitive. */
  ghost predicate Consistent<T(!new)>(cmp: (T, T) -> int) {
    && (forall x, y :: cmp(x, y) <= 0 || cmp(y, x) <= 0)
    && (forall x, y, z :: cmp(x, y) <= 0 && cmp(y, z) <= 0 ==> cmp(x, z) <= 0)
  }

  /** Every element may stay before every later one. */
  ghost predicate SortedBy<T>(s: seq<T>, cmp: (T, T) -> int) {
    forall i, j :: 0 <= i < j < |s| ==> cmp(s[i], s[j]) <= 0
  }

  /** Insert x into s from the right: x passes every element that is strictly greater. */
  function Insert<T>(s: seq<T>, x: T, cmp: (T, T) -> int): seq<T>
    decreases |s|
  {
    if s == [] || cmp(s[|s| - 1], x) <= 0 then s + [x]
    else Insert(s[..|s| - 1], x, cmp) + [s[|s| - 1]]
  }

  /** Stable sort: insert the elements one by one, left to right. */
  function InsertionSort<T>(s: seq<T>, cmp: (T, T) -> int): seq<T>
    decreases |s|
  {
    if s == [] then [] else Insert(InsertionSort(s[..|s| - 1], cmp), s[|s| - 1], cmp)
  }

  lemma {:induction false} InsertPermutes<T>(s: seq<T>, x: T, cmp: (T, T) -> int)
    ensures multiset(Insert(s, x, cmp)) == multiset(s) + multiset{x}
    decreases |s|
  {
    if s == [] || cmp(s[|s| - 1], x) <= 0 {
    } else {
      var init, last := s[..|s| - 1], s[|s| - 1];
      InsertPermutes(init, x, cmp);
      assert s == init + [last];
    }
  }

  /** The sort result is a permutation of its input. */
  lemma {:induction false} SortPermutes<T>(s: seq<T>, cmp: (T, T) -> int)
    ensures multiset(InsertionSort(s, cmp)) == multiset(s)
    decreases |s|
  {
    if s != [] {
      var init, last := s[..|s| - 1], s[|s| - 1];
      SortPermutes(init, cmp);
      InsertPermutes(InsertionSort(init, cmp), last, cmp);
      assert s == init + [last];
    }
  }

  lemma {:induction false} InsertSorted<T(!new)>(s: seq<T>, x: T, cmp: (T, T) -> int)
    requires Consistent(cmp)
    requires SortedBy(s, cmp)
    ensures SortedBy(Insert(s, x, cmp), cmp)
    decreases |s|
  {
    if s == [] {
    } else if cmp(s[|s| - 1], x) <= 0 {
      forall k | 0 <= k < |s| ensures cmp(s[k], x) <= 0 {
        if k < |s| - 1 {
          assert cmp(s[k], s[|s| - 1]) <= 0;
        }
      }
      AppendMax(s, x, cmp);
    } else {
      var init, last := s[..|s| - 1], s[|s| - 1];
      InsertSorted(init, x, cmp);
      InsertPermutes(init, x, cmp);
      var ins := Insert(init, x, cmp);
      forall k | 0 <= k < |ins| ensures cmp(ins[k], last) <= 0 {
        assert ins[k] in multiset(init) + multiset{x};
        if ins[k] == x {
          assert cmp(x, last) <= 0;
        } else {
          var m :| 0 <= m < |init| && init[m] == ins[k];
          assert cmp(s[m], s[|s| - 1]) <= 0;
        }
      }
      AppendMax(ins, last, cmp);
    }
  }

  /** Appending an element that every element may stay before keeps the order. */
  lemma AppendMax<T>(s: seq<T>, last: T, cmp: (T, T) -> int)
    requires SortedBy(s, cmp)
    requires forall k :: 0 <= k < |s| ==> cmp(s[k], last) <= 0
    ensures SortedBy(s + [last], cmp)
  {
    var r := s + [last];
    forall i, j | 0 <= i < j < |r| ensures cmp(r[i], r[j]) <= 0 {
      if j < |s| {
        assert cmp(s[i], s[j]) <= 0;
      } else {
        assert cmp(s[i], last) <= 0;
      }
    }
  }

  /** Under a consistent comparator the sort result is ordered. */
  lemma {:induction false} SortSorted<T(!new)>(s: seq<T>, cmp: (T, T) -> int)
    requires Consistent(cmp)
    ensures SortedBy(InsertionSort(s, cmp), cmp)
    decreases |s|
  {
    if s != [] {
      SortSorted(s[..|s| - 1], cmp);
      InsertSorted(InsertionSort(s[..|s| - 1], cmp), s[|s| - 1], cmp);
    }
  }

  /** Insertion sort in place, as `array.sort(cmp)` mutates the array it is called on. */
  method SortInPlace<T>(a: array<T>, cmp: (T, T) -> int)
    modifies a
    ensures a[..] == InsertionSort(old(a[..]), cmp)
  {
    ghost var input := a[..];
    var i := 0;
    while i < a.Length
      invariant 0 <= i <= a.Length
      invariant a[..i] == InsertionSort(input[..i], cmp)
      invariant a[i..] == input[i..]
    {
      ghost var before := a[..];
      InsertInPlace(a, i, cmp);
      assert input[..i + 1] == input[..i] + [input[i]];
      assert a[i + 1..] == before[i + 1..];
      i := i + 1;
    }
    assert input[..a.Length] == input;
  }

  /** One outer step of the in-place sort: move a[i] left into the sorted prefix a[..i]. */
  method InsertInPlace<T>(a: array<T>, i: nat, cmp: (T, T) -> int)
    requires i < a.Length
    modifies a
    ensures a[..i + 1] == Insert(old(a[..i]), old(a[i]), cmp)
    ensures a[i + 1..] == old(a[i + 1..])
  {
    var x := a[i];
    ghost var prefix, rest := a[..i], a[i + 1..];
    var j := i;
    assert prefix[..j] == prefix && prefix[j..] == [];
    assert a[..] == prefix[..j] + [a[j]] + prefix[j..] + rest;
    while j > 0 && cmp(a[j - 1], x) > 0
      invariant 0 <= j <= i
      invariant a[..] == prefix[..j] + [a[j]] + prefix[j..] + rest
      invariant Insert(prefix, x, cmp) == Insert(prefix[..j], x, cmp) + prefix[j..]
    {
      InsertShift(prefix, j, x, cmp);
      ghost var before := a[..];
      a[j] := a[j - 1];
      ShiftStep(before, a[..], prefix, rest, j);
      j := j - 1;
    }
    ghost var before := a[..];
    a[j] := x;
    InsertStop(prefix, j, x, cmp);
    Fill(before, a[..], prefix, rest, j, x);
  }

  lemma InsertShift<T>(p: seq<T>, j: nat, x: T, cmp: (T, T) -> int)
    requires 0 < j <= |p| && cmp(p[j - 1], x) > 0
    ensures Insert(p[..j], x, cmp) + p[j..] == Insert(p[..j - 1], x, cmp) + p[j - 1..]
  {
    assert p[..j][..j - 1] == p[..j - 1];
    assert p[j - 1..] == [p[j - 1]] + p[j..];
  }

  lemma InsertStop<T>(p: seq<T>, j: nat, x: T, cmp: (T, T) -> int)
    requires j <= |p| && (j == 0 || cmp(p[j - 1], x) <= 0)
    ensures Insert(p[..j], x, cmp) == p[..j] + [x]
  {
  }

  /** One shift of the inner loop: the gap at j moves to j - 1. */
  lemma ShiftStep<T>(before: seq<T>, after: seq<T>, prefix: seq<T>, rest: seq<T>, j: nat)
    requires 0 < j <= |prefix| && j < |before|
    requires before == prefix[..j] + [before[j]] + prefix[j..] + rest
    requires after == before[j := before[j - 1]]
    ensures after == prefix[..j - 1] + [after[j - 1]] + prefix[j - 1..] + rest
  {
    assert prefix[..j] == prefix[..j - 1] + [prefix[j - 1]];
    assert prefix[j - 1..] == [prefix[j - 1]] + prefix[j..];
  }

  /** Writing x into the gap left by the inner loop. */
  lemma Fill<T>(before: seq<T>, after: seq<T>, prefix: seq<T>, rest: seq<T>, j: nat, x: T)
    requires j <= |prefix| && j < |before|
    requires before == prefix[..j] + [before[j]] + prefix[j..] + rest
    requires after == before[j := x]
    ensures after[..|prefix| + 1] == prefix[..j] + [x] + prefix[j..]
    ensures after[|prefix| + 1..] == rest
  {
    assert after == prefix[..j] + [x] + prefix[j..] + rest;
  }
}
