/** The generic median helper of src/utils/math.rs, instantiated at integers: it sorts the
    slice it is given in place and returns the lower of the two middle elements when the
    length is even. */
module MathUtils {
  import opened Wrappers
  import opened Sorting

  /** The value `median` returns for a slice holding `s`. */
  function MedianOf(s: seq<int>): (m: Option<int>)
    ensures m.None? <==> |s| == 0
  {
    if |s| == 0 then None
    else if |s| % 2 == 0 then Some(Sort(s)[|s| / 2 - 1])
    else Some(Sort(s)[|s| / 2])
  }

  /** `sort_by(partial_cmp)`: the slice is rearranged into ascending order. The sort is
      the standard library's; its result is the sorted permutation of the old contents. */
  method SortInPlace(numbers: array<int>)
    modifies numbers
    ensures numbers[..] == Sort(old(numbers[..]))
  {
    var sorted := Sort(numbers[..]);
    forall i | 0 <= i < numbers.Length {
      numbers[i] := sorted[i];
    }
  }

  /** `median`: `None` for an empty slice, which is left alone; otherwise the slice is
      sorted in place and its element at index `(len - 1) / 2` is returned. */
  method Median(numbers: array<int>) returns (m: Option<int>)
    modifies numbers
    ensures numbers.Length == 0 ==> numbers[..] == old(numbers[..])
    ensures numbers.Length > 0 ==> numbers[..] == Sort(old(numbers[..]))
    ensures m == MedianOf(old(numbers[..]))
  {
    if numbers.Length == 0 {
      return None;
    }
    SortInPlace(numbers);
    var len := numbers.Length;
    if len % 2 == 0 {
      var mid := len / 2;
      m := Some(numbers[mid - 1]);
    } else {
      var mid := len / 2;
      m := Some(numbers[mid]);
    }
  }

  /** Both branches of `median` pick index `(len - 1) / 2`: the middle element for an
      odd length and the lower middle one for an even length. */
  lemma MedianIsLowerMiddle(s: seq<int>)
    ensures MedianOf(s).None? <==> |s| == 0
    ensures |s| > 0 ==> MedianOf(s) == Some(Sort(s)[(|s| - 1) / 2])
  {
    if |s| > 0 {
      var h := |s| / 2;
      assert |s| == 2 * h + |s| % 2;
      if |s| % 2 == 0 {
        assert (|s| - 1) / 2 == h - 1;
      } else {
        assert (|s| - 1) / 2 == h;
      }
    }
  }

  /** The result is a median of the input: one of its elements, with at most
      `(len - 1) / 2` elements below it and at most `len / 2` above it. */
  lemma MedianRank(s: seq<int>)
    requires |s| > 0
    ensures MedianOf(s).Some? && MedianOf(s).value in s
    ensures CountBelow(s, MedianOf(s).value) <= (|s| - 1) / 2
    ensures CountAbove(s, MedianOf(s).value) <= |s| / 2
  {
    MedianIsLowerMiddle(s);
    SortedElementFromInput(s, (|s| - 1) / 2);
    SortRank(s, (|s| - 1) / 2);
  }
}
