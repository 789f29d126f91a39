/**
 * `unique` (challenge 2 of src/main.rs): sort a list, then drop consecutive
 * duplicates, leaving each distinct element once, in ascending order.
 */
module Unique {

  predicate Sorted(s: seq<int>)
  {
    forall i, j :: 0 <= i < j < |s| ==> s[i] <= s[j]
  }

  predicate StrictlyIncreasing(s: seq<int>)
  {
    forall i, j :: 0 <= i < j < |s| ==> s[i] < s[j]
  }

  /** A list stays sorted when an element no larger than its head is put in
      front. */
  lemma SortedCons(h: int, t: seq<int>)
    requires Sorted(t)
    requires |t| > 0 ==> h <= t[0]
    ensures Sorted([h] + t)
  {
  }

  /** Puts `x` into a sorted list, before the first element not below it. */
  function Insert(x: int, s: seq<int>): (r: seq<int>)
    requires Sorted(s)
    ensures Sorted(r)
    ensures multiset(r) == multiset(s) + multiset{x}
    ensures |r| == |s| + 1
    ensures r[0] == x || (|s| > 0 && r[0] == s[0])
  {
    if |s| == 0 || x <= s[0] then
      SortedCons(x, s);
      [x] + s
    else
      assert s == [s[0]] + s[1..];
      var rest := Insert(x, s[1..]);
      SortedCons(s[0], rest);
      [s[0]] + rest
  }

  /** The order `slice::sort` leaves a list in: ascending, with the same
      elements. Stability is invisible on plain integers. */
  function SortAscending(s: seq<int>): (r: seq<int>)
    ensures Sorted(r)
    ensures multiset(r) == multiset(s)
  {
    if |s| == 0 then []
    else
      assert s == s[..|s| - 1] + [s[|s| - 1]];
      Insert(s[|s| - 1], SortAscending(s[..|s| - 1]))
  }

  /** `Vec::dedup` on a sorted list: an element is kept only when it differs
      from the last one kept. */
  method Dedup(sorted: seq<int>) returns (r: seq<int>)
    requires Sorted(sorted)
    ensures StrictlyIncreasing(r)
    ensures forall x :: x in r <==> x in sorted
  {
    r := [];
    for i := 0 to |sorted|
      invariant StrictlyIncreasing(r)
      invariant forall x :: x in r <==> x in sorted[..i]
      invariant i > 0 ==> |r| > 0 && r[|r| - 1] == sorted[i - 1]
      invariant i == 0 ==> r == []
    {
      assert sorted[..i + 1] == sorted[..i] + [sorted[i]];
      if i == 0 || sorted[i] != r[|r| - 1] {
        r := r + [sorted[i]];
      }
    }
    assert sorted[..|sorted|] == sorted;
  }

  /** `unique`: sort, then remove consecutive duplicates. */
  method Unique(list: seq<int>) returns (r: seq<int>)
    ensures StrictlyIncreasing(r)
    ensures forall x :: x in r <==> x in list
  {
    var sorted := SortAscending(list);
    r := Dedup(sorted);
    forall x
      ensures x in r <==> x in list
    {
      assert x in sorted <==> x in multiset(sorted);
      assert x in list <==> x in multiset(list);
    }
  }

  /** Strictly increasing lists are determined by their elements, so the two
      ensures of `Unique` fix its result completely. */
  lemma {:induction false} StrictlyIncreasingDetermined(a: seq<int>, b: seq<int>)
    requires StrictlyIncreasing(a) && StrictlyIncreasing(b)
    requires forall x :: x in a <==> x in b
    ensures a == b
  {
    assert |a| != 0 ==> a[0] in a && a[0] in b;
    assert |b| != 0 ==> b[0] in b && b[0] in a;
    if |a| != 0 {
      assert a[0] == b[0] by {
        assert a[0] in b && b[0] in a;
      }
      forall x ensures x in a[1..] <==> x in b[1..] {
        if x in a[1..] {
          assert x in b && x != b[0];
        }
        if x in b[1..] {
          assert x in a && x != a[0];
        }
      }
      StrictlyIncreasingDetermined(a[1..], b[1..]);
      assert a == [a[0]] + a[1..] && b == [b[0]] + b[1..];
    }
  }

  /** The two lists in the program: [1, 5, 2, 7, 9, 9] and [1, 6, 2, 5]. */
  method UniqueExamples() returns (r1: seq<int>, r2: seq<int>)
    ensures r1 == [1, 2, 5, 7, 9]
    ensures r2 == [1, 2, 5, 6]
  {
    r1 := Unique([1, 5, 2, 7, 9, 9]);
    StrictlyIncreasingDetermined(r1, [1, 2, 5, 7, 9]);
    r2 := Unique([1, 6, 2, 5]);
    StrictlyIncreasingDetermined(r2, [1, 2, 5, 6]);
  }
}
