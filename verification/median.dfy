/** The median of a salary column, computed by sorting the caller's vector in
    place and reading its middle. */
module Median {
  import opened SalaryRecords

  ghost predicate Sorted(s: seq<real>)
  {
    forall i, j :: 0 <= i < j < |s| ==> s[i] <= s[j]
  }

  /** The middle element of a sorted sequence of odd length, or the mean of
      the two middle elements of one of even length. */
  function MiddleOf(s: seq<real>): real
    requires |s| > 0
  {
    var n := |s|;
    if n % 2 == 0 then (s[n / 2 - 1] + s[n / 2]) / 2.0 else s[n / 2]
  }

  /** On an empty vector the lower middle index `len / 2 - 1` does not exist. */
  datatype MedianError = EmptyData

  /** Exchanges two entries of `a`. */
  method Swap(a: array<real>, i: nat, j: nat)
    requires i < a.Length && j < a.Length
    modifies a
    ensures a[..] == old(a[..])[i := old(a[j])][j := old(a[i])]
    ensures multiset(a[..]) == old(multiset(a[..]))
  {
    a[i], a[j] := a[j], a[i];
  }

  /** Sorts `a` ascending in place. */
  method SortInPlace(a: array<real>)
    modifies a
    ensures Sorted(a[..])
    ensures multiset(a[..]) == old(multiset(a[..]))
  {
    var i := 0;
    while i < a.Length
      invariant 0 <= i <= a.Length
      invariant forall p, q :: 0 <= p < q < i ==> a[p] <= a[q]
      invariant multiset(a[..]) == old(multiset(a[..]))
    {
      var j := i;
      while j > 0 && a[j - 1] > a[j]
        invariant 0 <= j <= i
        invariant forall p, q :: 0 <= p < q <= i && p != j && q != j ==> a[p] <= a[q]
        invariant forall q :: j < q <= i ==> a[j] <= a[q]
        invariant multiset(a[..]) == old(multiset(a[..]))
      {
        Swap(a, j - 1, j);
        j := j - 1;
      }
      i := i + 1;
    }
  }

  /** Sorts `data` in place, then returns its median; an empty vector has none. */
  method CalcMedian(data: array<real>) returns (r: Result<real, MedianError>)
    modifies data
    ensures Sorted(data[..])
    ensures multiset(data[..]) == old(multiset(data[..]))
    ensures data.Length == 0 ==> r == Err(EmptyData)
    ensures data.Length > 0 ==> r == Ok(MiddleOf(data[..]))
  {
    SortInPlace(data);
    var len := data.Length;
    if len == 0 {
      return Err(EmptyData);
    }
    if len % 2 == 0 {
      var mid1 := data[len / 2 - 1];
      var mid2 := data[len / 2];
      r := Ok((mid1 + mid2) / 2.0);
    } else {
      r := Ok(data[len / 2]);
    }
  }

  /** The middle of a sorted sequence splits it in halves: the first
      ceil(n/2) entries are at most it and the last ceil(n/2) at least it. */
  lemma MiddleSplitsSorted(s: seq<real>)
    requires |s| > 0 && Sorted(s)
    ensures forall i :: 0 <= i <= (|s| - 1) / 2 ==> s[i] <= MiddleOf(s)
    ensures forall i :: |s| / 2 <= i < |s| ==> MiddleOf(s) <= s[i]
    ensures s[0] <= MiddleOf(s) <= s[|s| - 1]
  {
  }

  /** The first entry of a sorted sequence is at most each of its values. */
  lemma SortedHeadIsLeast(a: seq<real>, x: real)
    requires Sorted(a)
    requires x in multiset(a)
    ensures a[0] <= x
  {
    var j :| 0 <= j < |a| && a[j] == x;
  }

  lemma MultisetOfTail(a: seq<real>)
    requires a != []
    ensures multiset(a[1..]) == multiset(a) - multiset{a[0]}
  {
    assert a == [a[0]] + a[1..];
  }

  lemma SortedTail(a: seq<real>)
    requires a != [] && Sorted(a)
    ensures Sorted(a[1..])
  {
  }

  /** Two sorted sequences with the same values start with the same value,
      and what remains after it holds the same values too. */
  lemma SameLeastAndRest(a: seq<real>, b: seq<real>)
    requires Sorted(a) && Sorted(b)
    requires multiset(a) == multiset(b)
    requires a != []
    ensures b != [] && a[0] == b[0]
    ensures multiset(a[1..]) == multiset(b[1..])
  {
    assert |a| == |multiset(a)| == |multiset(b)| == |b|;
    assert a[0] in multiset(b) by { assert a[0] in a; }
    assert b[0] in multiset(a) by { assert b[0] in b; }
    SortedHeadIsLeast(a, b[0]);
    SortedHeadIsLeast(b, a[0]);
    MultisetOfTail(a);
    MultisetOfTail(b);
  }

  /** A sorted arrangement of a multiset is unique. */
  lemma {:induction false} SortedPermutationUnique(a: seq<real>, b: seq<real>)
    requires Sorted(a) && Sorted(b)
    requires multiset(a) == multiset(b)
    ensures a == b
  {
    if a == [] {
      assert |b| == |multiset(b)| == 0;
    } else {
      SameLeastAndRest(a, b);
      SortedTail(a);
      SortedTail(b);
      SortedPermutationUnique(a[1..], b[1..]);
      assert a == [a[0]] + a[1..] && b == [b[0]] + b[1..];
    }
  }

  /** Two sorted arrangements of the same values have the same middle.
      Together with `CalcMedian`'s sorted-permutation ensures, the median of
      an input depends only on its values, whatever order an unstable sort
      leaves equal values in. */
  lemma MedianDependsOnlyOnValues(a: seq<real>, b: seq<real>)
    requires Sorted(a) && Sorted(b)
    requires multiset(a) == multiset(b)
    requires |a| > 0
    ensures |b| > 0 && MiddleOf(a) == MiddleOf(b)
  {
    SortedPermutationUnique(a, b);
  }
}
