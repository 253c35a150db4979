/** The standard library's sort, as the aggregators use it: an insertion sort on
    values, with the two facts every caller relies on — the result is ascending and is a
    permutation of the input. */
module Sorting {

  ghost predicate Sorted(s: seq<int>)
  {
    forall i, j :: 0 <= i < j < |s| ==> s[i] <= s[j]
  }

  function Insert(x: int, s: seq<int>): (r: seq<int>)
    ensures |r| == |s| + 1
  {
    if s == [] || x <= s[0] then [x] + s else [s[0]] + Insert(x, s[1..])
  }

  /** `sort`: ascending order. */
  function Sort(s: seq<int>): (r: seq<int>)
    ensures |r| == |s|
  {
    if s == [] then [] else Insert(s[0], Sort(s[1..]))
  }

  lemma {:induction false} InsertPermutes(x: int, s: seq<int>)
    ensures multiset(Insert(x, s)) == multiset{x} + multiset(s)
  {
    if s == [] || x <= s[0] {
    } else {
      InsertPermutes(x, s[1..]);
      assert s == [s[0]] + s[1..];
    }
  }

  lemma {:induction false} InsertSorted(x: int, s: seq<int>)
    requires Sorted(s)
    ensures Sorted(Insert(x, s))
  {
    if s == [] || x <= s[0] {
    } else {
      InsertSorted(x, s[1..]);
      InsertPermutes(x, s[1..]);
      var r := Insert(x, s[1..]);
      forall k | 0 <= k < |r|
        ensures s[0] <= r[k]
      {
        assert r[k] in multiset(r);
      }
    }
  }

  /** The sorted sequence is ascending and holds exactly the input's values. */
  lemma {:induction false} SortSpec(s: seq<int>)
    ensures Sorted(Sort(s))
    ensures multiset(Sort(s)) == multiset(s)
  {
    if s != [] {
      SortSpec(s[1..]);
      InsertSorted(s[0], Sort(s[1..]));
      InsertPermutes(s[0], Sort(s[1..]));
      assert s == [s[0]] + s[1..];
    }
  }

  /** Every element of the sorted sequence comes from the input. */
  lemma SortedElementFromInput(s: seq<int>, k: nat)
    requires k < |s|
    ensures Sort(s)[k] in s
  {
    SortSpec(s);
    assert Sort(s)[k] in multiset(Sort(s));
  }

  /** Sorting a sequence whose values are all `c` gives it back unchanged. */
  lemma SortConstant(s: seq<int>, c: int)
    requires forall i :: 0 <= i < |s| ==> s[i] == c
    ensures Sort(s) == s
  {
    SortSpec(s);
    forall k | 0 <= k < |s|
      ensures Sort(s)[k] == c
    {
      SortedElementFromInput(s, k);
    }
  }

  /** How many elements of `s` are strictly below `x`. */
  function CountBelow(s: seq<int>, x: int): nat
  {
    if s == [] then 0 else (if s[0] < x then 1 else 0) + CountBelow(s[1..], x)
  }

  /** How many elements of `s` are strictly above `x`. */
  function CountAbove(s: seq<int>, x: int): nat
  {
    if s == [] then 0 else (if s[0] > x then 1 else 0) + CountAbove(s[1..], x)
  }

  lemma {:induction false} InsertCounts(y: int, s: seq<int>, x: int)
    ensures CountBelow(Insert(y, s), x) == (if y < x then 1 else 0) + CountBelow(s, x)
    ensures CountAbove(Insert(y, s), x) == (if y > x then 1 else 0) + CountAbove(s, x)
  {
    var r := Insert(y, s);
    if s == [] || y <= s[0] {
      assert r[0] == y && r[1..] == s;
    } else {
      InsertCounts(y, s[1..], x);
      assert r[0] == s[0] && r[1..] == Insert(y, s[1..]);
    }
  }

  /** Sorting does not change how many elements lie below or above any value. */
  lemma {:induction false} SortCounts(s: seq<int>, x: int)
    ensures CountBelow(Sort(s), x) == CountBelow(s, x)
    ensures CountAbove(Sort(s), x) == CountAbove(s, x)
  {
    if s != [] {
      SortCounts(s[1..], x);
      InsertCounts(s[0], Sort(s[1..]), x);
    }
  }

  lemma {:induction false} CountBelowBound(t: seq<int>, x: int, k: nat)
    requires k <= |t|
    requires forall j :: k <= j < |t| ==> x <= t[j]
    ensures CountBelow(t, x) <= k
  {
    if t != [] {
      CountBelowBound(t[1..], x, if k == 0 then 0 else k - 1);
    }
  }

  lemma {:induction false} CountAboveBound(t: seq<int>, x: int, k: nat)
    requires k <= |t|
    requires forall j :: 0 <= j < k ==> t[j] <= x
    ensures CountAbove(t, x) <= |t| - k
  {
    if t != [] {
      CountAboveBound(t[1..], x, if k == 0 then 0 else k - 1);
    }
  }

  /** In a sorted sequence, at most `k` elements are below the one at index `k` and at
      most `|t| - 1 - k` above it. */
  lemma SortedRank(t: seq<int>, k: nat)
    requires Sorted(t) && k < |t|
    ensures CountBelow(t, t[k]) <= k && CountAbove(t, t[k]) <= |t| - 1 - k
  {
    forall j | k <= j < |t|
      ensures t[k] <= t[j]
    {
      if k < j {
        assert t[k] <= t[j];
      }
    }
    forall j | 0 <= j < k + 1
      ensures t[j] <= t[k]
    {
      if j < k {
        assert t[j] <= t[k];
      }
    }
    CountBelowBound(t, t[k], k);
    CountAboveBound(t, t[k], k + 1);
  }

  /** The rank of the element at index `k` of the sorted sequence: at most `k` input
      elements are below it and at most `|s| - 1 - k` above it. */
  lemma SortRank(s: seq<int>, k: nat)
    requires k < |s|
    ensures CountBelow(s, Sort(s)[k]) <= k
    ensures CountAbove(s, Sort(s)[k]) <= |s| - 1 - k
  {
    SortSpec(s);
    SortCounts(s, Sort(s)[k]);
    SortedRank(Sort(s), k);
  }
}
