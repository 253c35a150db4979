/** The per-channel colour aggregators that reduce a window of pixels to one LED colour
    (src/utils/color_math.rs). */
module ColorMath {
  import opened LedColors
  import opened Sorting

  function Pick(c: Rgb, ch: Channel): byte
  {
    match ch
    case Red => c.r
    case Green => c.g
    case Blue => c.b
  }

  /** One channel of every pixel, in order (`pixels.iter().map(|p| p.0[k]).collect()`). */
  function Values(pixels: seq<Rgb>, ch: Channel): (v: seq<byte>)
    ensures |v| == |pixels|
    ensures forall i :: 0 <= i < |pixels| ==> v[i] == Pick(pixels[i], ch)
  {
    seq(|pixels|, i requires 0 <= i < |pixels| => Pick(pixels[i], ch))
  }

  /** The total of one channel over the pixels. */
  function ChannelSum(pixels: seq<Rgb>, ch: Channel): nat
  {
    if pixels == [] then 0
    else ChannelSum(pixels[..|pixels| - 1], ch) + Pick(pixels[|pixels| - 1], ch)
  }

  /** If every pixel's channel lies in `[lo, hi]`, the total lies in `[n * lo, n * hi]`. */
  lemma {:induction false} ChannelSumBounds(pixels: seq<Rgb>, ch: Channel, lo: int, hi: int)
    requires forall i :: 0 <= i < |pixels| ==> lo <= Pick(pixels[i], ch) <= hi
    ensures |pixels| * lo <= ChannelSum(pixels, ch) <= |pixels| * hi
  {
    if pixels != [] {
      var n := |pixels| - 1;
      ChannelSumBounds(pixels[..n], ch, lo, hi);
      MulSucc(n, lo);
      MulSucc(n, hi);
    }
  }

  lemma MulSucc(n: int, x: int)
    ensures (n + 1) * x == n * x + x
  {
  }

  lemma MulLess(n: int, a: int, b: int)
    requires n > 0 && n * a < n * b
    ensures a < b
  {
  }

  /** Floor division of a total that lies between `n * lo` and `n * hi` lies between
      `lo` and `hi`. */
  lemma FloorDivBounds(total: int, n: int, lo: int, hi: int)
    requires n > 0 && n * lo <= total <= n * hi
    ensures lo <= total / n <= hi
  {
    var q := total / n;
    MulSucc(q, n);
    assert n * q <= total < n * (q + 1);
    MulLess(n, lo, q + 1);
    MulLess(n, q, hi + 1);
  }

  /** One channel of `average`: the floor of the channel's mean. */
  function ChannelAverage(pixels: seq<Rgb>, ch: Channel): byte
    requires |pixels| > 0
  {
    ChannelSumBounds(pixels, ch, 0, 255);
    FloorDivBounds(ChannelSum(pixels, ch), |pixels|, 0, 255);
    ChannelSum(pixels, ch) / |pixels|
  }

  /** The value of `average`: per channel, the total divided by the pixel count,
      rounded down. */
  function AverageOf(pixels: seq<Rgb>): Rgb
    requires |pixels| > 0
  {
    Rgb(ChannelAverage(pixels, Red), ChannelAverage(pixels, Green), ChannelAverage(pixels, Blue))
  }

  /** One channel of `median`: the element at index `len / 2` of the sorted values, the
      upper of the two middle elements when the length is even. */
  function ChannelMedian(pixels: seq<Rgb>, ch: Channel): byte
    requires |pixels| > 0
  {
    SortedElementFromInput(Values(pixels, ch), |pixels| / 2);
    Sort(Values(pixels, ch))[|pixels| / 2]
  }

  function MedianOf(pixels: seq<Rgb>): Rgb
    requires |pixels| > 0
  {
    Rgb(ChannelMedian(pixels, Red), ChannelMedian(pixels, Green), ChannelMedian(pixels, Blue))
  }

  /** `average`: accumulate the three channel totals in one pass, then divide. An empty
      slice divides by zero in the source, hence the precondition. */
  method Average(pixels: seq<Rgb>) returns (c: Rgb)
    requires |pixels| > 0
    ensures c == AverageOf(pixels)
  {
    var totalPixels := |pixels|;
    var totalR, totalG, totalB := 0, 0, 0;
    var i := 0;
    while i < |pixels|
      invariant 0 <= i <= |pixels|
      invariant totalR == ChannelSum(pixels[..i], Red)
      invariant totalG == ChannelSum(pixels[..i], Green)
      invariant totalB == ChannelSum(pixels[..i], Blue)
    {
      var pixel := pixels[i];
      assert pixels[..i + 1][..i] == pixels[..i];
      totalR, totalG, totalB := totalR + pixel.r, totalG + pixel.g, totalB + pixel.b;
      i := i + 1;
    }
    assert pixels[..i] == pixels;
    assert totalR / totalPixels == ChannelAverage(pixels, Red);
    assert totalG / totalPixels == ChannelAverage(pixels, Green);
    assert totalB / totalPixels == ChannelAverage(pixels, Blue);
    c := Rgb(totalR / totalPixels, totalG / totalPixels, totalB / totalPixels);
  }

  /** `median`: collect each channel, sort it, take index `len / 2`. Indexing an empty
      vector panics in the source, hence the precondition. */
  method Median(pixels: seq<Rgb>) returns (c: Rgb)
    requires |pixels| > 0
    ensures c == MedianOf(pixels)
  {
    var rValues: seq<int> := Values(pixels, Red);
    var gValues: seq<int> := Values(pixels, Green);
    var bValues: seq<int> := Values(pixels, Blue);
    rValues := Sort(rValues);
    gValues := Sort(gValues);
    bValues := Sort(bValues);
    var midIndex := |pixels| / 2;
    assert rValues[midIndex] == ChannelMedian(pixels, Red);
    assert gValues[midIndex] == ChannelMedian(pixels, Green);
    assert bValues[midIndex] == ChannelMedian(pixels, Blue);
    c := Rgb(rValues[midIndex], gValues[midIndex], bValues[midIndex]);
  }

  /** Each channel of the average lies within the range of that channel over the
      input: at least the smallest value and at most the largest. */
  lemma AverageWithinRange(pixels: seq<Rgb>, ch: Channel, lo: int, hi: int)
    requires |pixels| > 0
    requires forall i :: 0 <= i < |pixels| ==> lo <= Pick(pixels[i], ch) <= hi
    ensures lo <= Pick(AverageOf(pixels), ch) <= hi
  {
    ChannelSumBounds(pixels, ch, lo, hi);
    FloorDivBounds(ChannelSum(pixels, ch), |pixels|, lo, hi);
  }

  /** Each channel of the median is one of that channel's input values. */
  lemma MedianFromInput(pixels: seq<Rgb>, ch: Channel)
    requires |pixels| > 0
    ensures exists i :: 0 <= i < |pixels| && Pick(MedianOf(pixels), ch) == Pick(pixels[i], ch)
  {
    var v := Values(pixels, ch);
    SortedElementFromInput(v, |pixels| / 2);
    var i :| 0 <= i < |v| && v[i] == Sort(v)[|pixels| / 2];
    assert Pick(MedianOf(pixels), ch) == Pick(pixels[i], ch);
  }

  /** Each channel of the median is a median of that channel's values: at most
      `len / 2` of them lie below it and at most `(len - 1) / 2` above it. */
  lemma MedianRank(pixels: seq<Rgb>, ch: Channel)
    requires |pixels| > 0
    ensures CountBelow(Values(pixels, ch), Pick(MedianOf(pixels), ch)) <= |pixels| / 2
    ensures CountAbove(Values(pixels, ch), Pick(MedianOf(pixels), ch)) <= (|pixels| - 1) / 2
  {
    SortRank(Values(pixels, ch), |pixels| / 2);
  }

  /** A window of one colour reduces to that colour under both aggregators. */
  lemma UniformWindow(pixels: seq<Rgb>, c: Rgb)
    requires |pixels| > 0
    requires forall i :: 0 <= i < |pixels| ==> pixels[i] == c
    ensures AverageOf(pixels) == c && MedianOf(pixels) == c
  {
    forall ch: Channel
      ensures Pick(AverageOf(pixels), ch) == Pick(c, ch) && Pick(MedianOf(pixels), ch) == Pick(c, ch)
    {
      AverageWithinRange(pixels, ch, Pick(c, ch), Pick(c, ch));
      SortConstant(Values(pixels, ch), Pick(c, ch));
    }
    assert AverageOf(pixels) == Rgb(Pick(AverageOf(pixels), Red), Pick(AverageOf(pixels), Green), Pick(AverageOf(pixels), Blue));
    assert MedianOf(pixels) == Rgb(Pick(MedianOf(pixels), Red), Pick(MedianOf(pixels), Green), Pick(MedianOf(pixels), Blue));
  }
}
