/**
 * The self-check that an instruction's timestamp list equals a sorted clone
 * of itself. `Vec::sort` is modelled by insertion sort: any correct sort
 * returns the same, unique, non-decreasing permutation.
 */
module Sorting {
  import opened Profiler

  /** No element is smaller than one before it. */
  predicate NonDecreasing(s: seq<Timestamp>)
  {
    forall j, k :: 0 <= j < k < |s| ==> s[j] <= s[k]
  }

  /** Inserts `x` into `s` before the trailing elements larger than it. */
  function Insert(s: seq<Timestamp>, x: Timestamp): (r: seq<Timestamp>)
    ensures |r| == |s| + 1
    ensures multiset(r) == multiset(s) + multiset{x}
    ensures NonDecreasing(s) ==> NonDecreasing(r)
  {
    if s == [] || s[|s| - 1] <= x then
      if NonDecreasing(s) then AppendAbove(s, x); s + [x] else s + [x]
    else
      var init, last := s[..|s| - 1], s[|s| - 1];
      assert s == init + [last];
      var r' := Insert(init, x);
      if NonDecreasing(s) then
        SortedInit(s);
        BoundedBy(init, x, r', last);
        AppendAbove(r', last);
        r' + [last]
      else
        r' + [last]
  }

  /** Appending an element no smaller than any other keeps a list non-decreasing. */
  lemma AppendAbove(s: seq<Timestamp>, x: Timestamp)
    requires NonDecreasing(s)
    requires forall j :: 0 <= j < |s| ==> s[j] <= x
    ensures NonDecreasing(s + [x])
  {
  }

  /** When every element of `s` and `x` lie at or below `bound`, so does every
      element of a list holding exactly those elements. */
  lemma BoundedBy(s: seq<Timestamp>, x: Timestamp, r: seq<Timestamp>, bound: Timestamp)
    requires multiset(r) == multiset(s) + multiset{x}
    requires x <= bound && forall j :: 0 <= j < |s| ==> s[j] <= bound
    ensures forall j :: 0 <= j < |r| ==> r[j] <= bound
  {
    forall j | 0 <= j < |r|
      ensures r[j] <= bound
    {
      assert r[j] in multiset(r);
      if r[j] != x {
        assert r[j] in multiset(s);
        var k :| 0 <= k < |s| && s[k] == r[j];
      }
    }
  }

  /** The sorted clone of a timestamp list (`durs.clone()` then `sort()`). */
  function Sort(s: seq<Timestamp>): (r: seq<Timestamp>)
    ensures |r| == |s|
    ensures multiset(r) == multiset(s)
    ensures NonDecreasing(r)
  {
    if s == [] then []
    else
      assert s == s[..|s| - 1] + [s[|s| - 1]];
      Insert(Sort(s[..|s| - 1]), s[|s| - 1])
  }

  /** Inserting an element no smaller than the last one appends it. */
  lemma InsertAtEnd(s: seq<Timestamp>, x: Timestamp)
    requires s == [] || s[|s| - 1] <= x
    ensures Insert(s, x) == s + [x]
  {
  }

  /** Dropping the last element of a non-decreasing list keeps it non-decreasing,
      and the dropped element is no smaller than any other. */
  lemma SortedInit(s: seq<Timestamp>)
    requires s != [] && NonDecreasing(s)
    ensures NonDecreasing(s[..|s| - 1])
    ensures forall j :: 0 <= j < |s| - 1 ==> s[j] <= s[|s| - 1]
  {
  }

  /** Sorting a list that is already non-decreasing leaves it as it is. */
  lemma {:induction false} SortedIsFixed(s: seq<Timestamp>)
    requires NonDecreasing(s)
    ensures Sort(s) == s
  {
    if s != [] {
      var init, last := s[..|s| - 1], s[|s| - 1];
      assert s == init + [last];
      SortedInit(s);
      SortedIsFixed(init);
      InsertAtEnd(init, last);
    }
  }

  /** The self-check `durs == sorted(durs)` passes exactly when the list is
      already non-decreasing. */
  lemma SortCheckPasses(s: seq<Timestamp>)
    ensures Sort(s) == s <==> NonDecreasing(s)
  {
    if NonDecreasing(s) {
      SortedIsFixed(s);
    }
  }
}
