/** The mapping from a captured screen to the LED ring (src/utils/image_processing.rs):
    the border of the image is cut into one window per LED, walked in five segments, and
    each window is reduced to one colour by the configured aggregator. */
module ImageProcessing {
  import opened LedColors
  import opened LedSequences
  import opened ColorMath

  /** `ParseMode`: which aggregator reduces a window. */
  datatype ParseMode = Average | Median

  /** The strip settings `parse_image` reads from the global configuration: LEDs along
      the top (`width`) and each side (`height`), the LEDs missing from the bottom edge
      (`bottomGap`), and in pixels the corner margin and the depth of every window. */
  datatype StripConf = StripConf(width: nat, height: nat, bottomGap: nat, cornerSize: nat, thickness: nat)

  /** The five walks of the border, in the order their LEDs are emitted. */
  datatype Segment = BottomRight | Right | Top | Left | BottomLeft

  /** An image of `|img|` rows of `widthP` pixels each. */
  predicate IsImage(img: seq<seq<Rgb>>, widthP: nat)
  {
    forall y :: 0 <= y < |img| ==> |img[y]| == widthP
  }

  /** Exactly the settings on which `parse_image` does not panic for an image of
      `widthP` by `heightP` pixels: no unsigned underflow in the cell sizes, the
      half-bottom length or the window bounds, no division by a zero LED count, and no
      empty window (the aggregators need at least one pixel). */
  predicate Geometry(widthP: nat, heightP: nat, conf: StripConf)
  {
    conf.width >= 1 && conf.height >= 1 && conf.bottomGap <= conf.width &&
    widthP >= 2 * conf.cornerSize + conf.width && heightP >= 2 * conf.cornerSize + conf.height &&
    1 <= conf.thickness <= widthP && conf.thickness <= heightP
  }

  predicate Parsable(img: seq<seq<Rgb>>, widthP: nat, conf: StripConf)
  {
    IsImage(img, widthP) && Geometry(widthP, |img|, conf)
  }

  /** Rows `r0..r1` and columns `c0..c1` of the image (an `ndarray` slice `s![r0..r1, c0..c1]`). */
  datatype Rect = Rect(r0: nat, r1: nat, c0: nat, c1: nat)

  /** A non-empty rectangle inside a `widthP` by `heightP` image. */
  predicate Inside(r: Rect, widthP: nat, heightP: nat)
  {
    r.r0 < r.r1 <= heightP && r.c0 < r.c1 <= widthP
  }

  /** `horizontal_thickness_p`: the width in pixels of one LED's cell along the top and
      bottom. */
  function HCell(widthP: nat, conf: StripConf): nat
    requires conf.width >= 1 && widthP >= 2 * conf.cornerSize
  {
    (widthP - conf.cornerSize * 2) / conf.width
  }

  /** `vertical_thickness_p`: the height in pixels of one LED's cell along the sides. */
  function VCell(heightP: nat, conf: StripConf): nat
    requires conf.height >= 1 && heightP >= 2 * conf.cornerSize
  {
    (heightP - conf.cornerSize * 2) / conf.height
  }

  /** `half_bottom_length`: the LEDs on each side of the bottom gap. */
  function HalfBottom(conf: StripConf): nat
    requires conf.bottomGap <= conf.width
  {
    (conf.width - conf.bottomGap) / 2
  }

  /** The pixels of rows `r0..r1` and columns `c0..c1`, row after row (the iteration
      order of an `ndarray` slice). */
  function Window(img: seq<seq<Rgb>>, r0: nat, r1: nat, c0: nat, c1: nat): (w: seq<Rgb>)
    requires r0 <= r1 <= |img| && c0 <= c1
    requires forall y :: r0 <= y < r1 ==> c1 <= |img[y]|
    ensures |w| > 0 <==> r0 < r1 && c0 < c1
    decreases r1 - r0
  {
    if r0 == r1 then [] else img[r0][c0..c1] + Window(img, r0 + 1, r1, c0, c1)
  }

  /** A window holds one pixel per row and column of its rectangle. */
  lemma {:induction false} WindowLength(img: seq<seq<Rgb>>, r0: nat, r1: nat, c0: nat, c1: nat)
    requires r0 <= r1 <= |img| && c0 <= c1
    requires forall y :: r0 <= y < r1 ==> c1 <= |img[y]|
    ensures |Window(img, r0, r1, c0, c1)| == (r1 - r0) * (c1 - c0)
    decreases r1 - r0
  {
    if r0 < r1 {
      WindowLength(img, r0 + 1, r1, c0, c1);
      MulSucc(r1 - r0 - 1, c1 - c0);
    }
  }

  lemma MulLe(a: nat, b: nat, c: nat)
    requires a <= b
    ensures a * c <= b * c
  {
  }

  /** Cell `i` of `n` equal cells cut from `total` pixels ends inside them. */
  lemma CellWithin(i: nat, n: nat, total: nat)
    requires i < n
    ensures i * (total / n) + total / n == (i + 1) * (total / n) <= total
  {
    MulLe(i + 1, n, total / n);
  }

  /** The cells of the bottom-right walk start after the corner margin and the
      bottom-left half, and still end inside the image. */
  lemma BottomCellWithin(conf: StripConf, widthP: nat, hc: nat, half: nat, i: nat)
    requires conf.width >= 1 && conf.bottomGap <= conf.width && widthP >= 2 * conf.cornerSize
    requires hc == HCell(widthP, conf) && half == HalfBottom(conf) && i < half
    ensures var offset := conf.cornerSize + half * hc;
            offset + i * hc + hc == offset + (i + 1) * hc <= widthP
  {
    CellWithin(half + i, conf.width, widthP - conf.cornerSize * 2);
    assert half * hc + i * hc == (half + i) * hc;
  }

  /** The number of LEDs in a segment. */
  function SegmentLength(conf: StripConf, seg: Segment): nat
    requires conf.bottomGap <= conf.width
  {
    match seg
    case BottomRight => HalfBottom(conf)
    case Right => conf.height
    case Top => conf.width
    case Left => conf.height
    case BottomLeft => HalfBottom(conf)
  }

  /** The cell index of the `k`-th LED of a segment: the first three segments run
      their index downwards (`(0..n).rev()`), the last two upwards. */
  function CellIndex(conf: StripConf, seg: Segment, k: nat): nat
    requires conf.bottomGap <= conf.width && k < SegmentLength(conf, seg)
  {
    if seg.BottomRight? || seg.Right? || seg.Top? then SegmentLength(conf, seg) - 1 - k else k
  }

  /** The rectangle of cell `i` of a segment: `thickness` rows at the bottom or top, or
      `thickness` columns at the right or left, and one cell along the edge. */
  function CellRect(widthP: nat, heightP: nat, conf: StripConf, seg: Segment, i: nat): (r: Rect)
    requires Geometry(widthP, heightP, conf) && i < SegmentLength(conf, seg)
    ensures Inside(r, widthP, heightP)
  {
    match seg
    case BottomRight => BottomRightRect(widthP, heightP, conf, i)
    case Right => RightRect(widthP, heightP, conf, i)
    case Top => TopRect(widthP, heightP, conf, i)
    case Left => LeftRect(widthP, heightP, conf, i)
    case BottomLeft => BottomLeftRect(widthP, heightP, conf, i)
  }

  /** Bottom right: the bottom `thickness` rows; the columns start `corner_size_p` plus
      `half_bottom_length` cells from the left edge. */
  function BottomRightRect(widthP: nat, heightP: nat, conf: StripConf, i: nat): (r: Rect)
    requires Geometry(widthP, heightP, conf) && i < HalfBottom(conf)
    ensures Inside(r, widthP, heightP)
  {
    var hc, half, t := HCell(widthP, conf), HalfBottom(conf), conf.thickness;
    var offset := conf.cornerSize + half * hc;
    BottomCellWithin(conf, widthP, hc, half, i);
    Rect(heightP - t, heightP, offset + i * hc, offset + (i + 1) * hc)
  }

  /** Right: the rightmost `thickness` columns, the rows of cell `i` from the top edge. */
  function RightRect(widthP: nat, heightP: nat, conf: StripConf, i: nat): (r: Rect)
    requires Geometry(widthP, heightP, conf) && i < conf.height
    ensures Inside(r, widthP, heightP)
  {
    var vc, t := VCell(heightP, conf), conf.thickness;
    CellWithin(i, conf.height, heightP - conf.cornerSize * 2);
    Rect(i * vc, (i + 1) * vc, widthP - t, widthP)
  }

  /** Top: the top `thickness` rows, the columns of cell `i` from the left edge. */
  function TopRect(widthP: nat, heightP: nat, conf: StripConf, i: nat): (r: Rect)
    requires Geometry(widthP, heightP, conf) && i < conf.width
    ensures Inside(r, widthP, heightP)
  {
    var hc, t := HCell(widthP, conf), conf.thickness;
    CellWithin(i, conf.width, widthP - conf.cornerSize * 2);
    Rect(0, t, i * hc, (i + 1) * hc)
  }

  /** Left: the leftmost `thickness` columns, the rows of cell `i` from the top edge. */
  function LeftRect(widthP: nat, heightP: nat, conf: StripConf, i: nat): (r: Rect)
    requires Geometry(widthP, heightP, conf) && i < conf.height
    ensures Inside(r, widthP, heightP)
  {
    var vc, t := VCell(heightP, conf), conf.thickness;
    CellWithin(i, conf.height, heightP - conf.cornerSize * 2);
    Rect(i * vc, (i + 1) * vc, 0, t)
  }

  /** Bottom left: the bottom `thickness` rows, the columns of cell `i` from the left edge. */
  function BottomLeftRect(widthP: nat, heightP: nat, conf: StripConf, i: nat): (r: Rect)
    requires Geometry(widthP, heightP, conf) && i < HalfBottom(conf)
    ensures Inside(r, widthP, heightP)
  {
    var hc, t := HCell(widthP, conf), conf.thickness;
    CellWithin(i, conf.width, widthP - conf.cornerSize * 2);
    Rect(heightP - t, heightP, i * hc, (i + 1) * hc)
  }

  /** The pixels of a cell, row after row. */
  function Cell(img: seq<seq<Rgb>>, widthP: nat, conf: StripConf, seg: Segment, i: nat): (w: seq<Rgb>)
    requires Parsable(img, widthP, conf) && i < SegmentLength(conf, seg)
    ensures |w| > 0
  {
    var r := CellRect(widthP, |img|, conf, seg, i);
    Window(img, r.r0, r.r1, r.c0, r.c1)
  }

  /** The aggregator the parse mode selects. */
  function Process(mode: ParseMode, pixels: seq<Rgb>): Rgb
    requires |pixels| > 0
  {
    match mode
    case Average => AverageOf(pixels)
    case Median => MedianOf(pixels)
  }

  /** The colours of one segment, in emission order. */
  function SegmentColors(img: seq<seq<Rgb>>, widthP: nat, conf: StripConf, mode: ParseMode, seg: Segment)
    : (s: seq<Rgb>)
    requires Parsable(img, widthP, conf)
    ensures |s| == SegmentLength(conf, seg)
  {
    seq(SegmentLength(conf, seg), k requires 0 <= k < SegmentLength(conf, seg) =>
      Process(mode, Cell(img, widthP, conf, seg, CellIndex(conf, seg, k))))
  }

  /** The colours `parse_image` stores: bottom right, right, top, left, bottom left. */
  function BorderColors(img: seq<seq<Rgb>>, widthP: nat, conf: StripConf, mode: ParseMode): seq<Rgb>
    requires Parsable(img, widthP, conf)
  {
    SegmentColors(img, widthP, conf, mode, BottomRight) + SegmentColors(img, widthP, conf, mode, Right) +
    SegmentColors(img, widthP, conf, mode, Top) + SegmentColors(img, widthP, conf, mode, Left) +
    SegmentColors(img, widthP, conf, mode, BottomLeft)
  }

  /** `process(&slice)`, dispatched on the parse mode. */
  method Aggregate(mode: ParseMode, pixels: seq<Rgb>) returns (c: Rgb)
    requires |pixels| > 0
    ensures c == Process(mode, pixels)
  {
    match mode {
      case Average => c := ColorMath.Average(pixels);
      case Median => c := ColorMath.Median(pixels);
    }
  }

  /** `parse_image`: walk the five segments, push one aggregated colour per window, and
      hand the result to `set_colors`. Each walk is one loop of the source, pushing onto
      the same vector. */
  method ParseImage(img: seq<seq<Rgb>>, widthP: nat, conf: StripConf, mode: ParseMode,
                    ledSequence: LedSequence)
    requires Parsable(img, widthP, conf)
    modifies ledSequence
    ensures ledSequence.ledColors == BorderColors(img, widthP, conf, mode)
  {
    var colors: seq<Rgb> := [];
    colors := PushBottomRight(img, widthP, conf, mode, colors);
    assert colors == SegmentColors(img, widthP, conf, mode, BottomRight);
    colors := PushRight(img, widthP, conf, mode, colors);
    colors := PushTop(img, widthP, conf, mode, colors);
    colors := PushLeft(img, widthP, conf, mode, colors);
    colors := PushBottomLeft(img, widthP, conf, mode, colors);
    ledSequence.SetColors(colors);
  }

  /** The `k`-th colour of a segment is the aggregate of its cell's window, and that
      window lies inside the image. */
  lemma SegmentEntry(img: seq<seq<Rgb>>, widthP: nat, conf: StripConf, mode: ParseMode,
                     seg: Segment, k: nat)
    requires Parsable(img, widthP, conf) && k < SegmentLength(conf, seg)
    ensures var r := CellRect(widthP, |img|, conf, seg, CellIndex(conf, seg, k));
            r.r0 <= r.r1 <= |img| && r.c0 <= r.c1 &&
            (forall y :: r.r0 <= y < r.r1 ==> r.c1 <= |img[y]|) &&
            SegmentColors(img, widthP, conf, mode, seg)[k] == Process(mode, Window(img, r.r0, r.r1, r.c0, r.c1))
  {
  }

  /** One pass of a walk: slice the window of rectangle `r`, which the caller computes
      as cell `CellIndex(conf, seg, k)`, and aggregate it. */
  method CellColor(img: seq<seq<Rgb>>, widthP: nat, conf: StripConf, mode: ParseMode,
                   seg: Segment, k: nat, r: Rect) returns (c: Rgb)
    requires Parsable(img, widthP, conf) && k < SegmentLength(conf, seg)
    requires r == CellRect(widthP, |img|, conf, seg, CellIndex(conf, seg, k))
    ensures c == SegmentColors(img, widthP, conf, mode, seg)[k]
  {
    SegmentEntry(img, widthP, conf, mode, seg, k);
    var slice := Window(img, r.r0, r.r1, r.c0, r.c1);
    c := Aggregate(mode, slice);
  }

  /** Bottom right: `for i in (0..half_bottom_length).rev()`. */
  method PushBottomRight(img: seq<seq<Rgb>>, widthP: nat, conf: StripConf, mode: ParseMode,
                         colors: seq<Rgb>) returns (out: seq<Rgb>)
    requires Parsable(img, widthP, conf)
    ensures out == colors + SegmentColors(img, widthP, conf, mode, BottomRight)
  {
    var heightP := |img|;
    var hc := (widthP - conf.cornerSize * 2) / conf.width;
    var half := (conf.width - conf.bottomGap) / 2;
    var t := conf.thickness;
    ghost var segment := SegmentColors(img, widthP, conf, mode, BottomRight);
    var offset := conf.cornerSize + half * hc;
    assert hc == HCell(widthP, conf) && half == HalfBottom(conf);
    out := colors;
    var i := half;
    while i > 0
      invariant 0 <= i <= half
      invariant out == colors + segment[..half - i]
    {
      i := i - 1;
      assert CellIndex(conf, BottomRight, half - 1 - i) == i;
      assert CellRect(widthP, heightP, conf, BottomRight, i) ==
             Rect(heightP - t, heightP, offset + i * hc, offset + (i + 1) * hc);
      var c := CellColor(img, widthP, conf, mode, BottomRight, half - 1 - i,
                         Rect(heightP - t, heightP, offset + i * hc, offset + (i + 1) * hc));
      assert segment[..half - i] == segment[..half - 1 - i] + [c];
      out := out + [c];
    }
  }

  /** Right: `for i in (0..height).rev()`, from the bottom cell up. */
  method PushRight(img: seq<seq<Rgb>>, widthP: nat, conf: StripConf, mode: ParseMode,
                   colors: seq<Rgb>) returns (out: seq<Rgb>)
    requires Parsable(img, widthP, conf)
    ensures out == colors + SegmentColors(img, widthP, conf, mode, Right)
  {
    var heightP := |img|;
    var vc := (heightP - conf.cornerSize * 2) / conf.height;
    var t := conf.thickness;
    ghost var segment := SegmentColors(img, widthP, conf, mode, Right);
    out := colors;
    var i := conf.height;
    while i > 0
      invariant 0 <= i <= conf.height
      invariant out == colors + segment[..conf.height - i]
    {
      i := i - 1;
      var c := CellColor(img, widthP, conf, mode, Right, conf.height - 1 - i,
                         Rect(i * vc, (i + 1) * vc, widthP - t, widthP));
      assert segment[..conf.height - i] == segment[..conf.height - 1 - i] + [c];
      out := out + [c];
    }
  }

  /** Top: `for i in (0..width).rev()`, from the right cell leftwards. */
  method PushTop(img: seq<seq<Rgb>>, widthP: nat, conf: StripConf, mode: ParseMode,
                 colors: seq<Rgb>) returns (out: seq<Rgb>)
    requires Parsable(img, widthP, conf)
    ensures out == colors + SegmentColors(img, widthP, conf, mode, Top)
  {
    var hc := (widthP - conf.cornerSize * 2) / conf.width;
    var t := conf.thickness;
    ghost var segment := SegmentColors(img, widthP, conf, mode, Top);
    out := colors;
    var i := conf.width;
    while i > 0
      invariant 0 <= i <= conf.width
      invariant out == colors + segment[..conf.width - i]
    {
      i := i - 1;
      var c := CellColor(img, widthP, conf, mode, Top, conf.width - 1 - i,
                         Rect(0, t, i * hc, (i + 1) * hc));
      assert segment[..conf.width - i] == segment[..conf.width - 1 - i] + [c];
      out := out + [c];
    }
  }

  /** Left: `for i in 0..height`, from the top cell down. */
  method PushLeft(img: seq<seq<Rgb>>, widthP: nat, conf: StripConf, mode: ParseMode,
                  colors: seq<Rgb>) returns (out: seq<Rgb>)
    requires Parsable(img, widthP, conf)
    ensures out == colors + SegmentColors(img, widthP, conf, mode, Left)
  {
    var heightP := |img|;
    var vc := (heightP - conf.cornerSize * 2) / conf.height;
    var t := conf.thickness;
    ghost var segment := SegmentColors(img, widthP, conf, mode, Left);
    out := colors;
    var i := 0;
    while i < conf.height
      invariant 0 <= i <= conf.height
      invariant out == colors + segment[..i]
    {
      var c := CellColor(img, widthP, conf, mode, Left, i,
                         Rect(i * vc, (i + 1) * vc, 0, t));
      assert segment[..i + 1] == segment[..i] + [c];
      out := out + [c];
      i := i + 1;
    }
  }

  /** Bottom left: `for i in 0..half_bottom_length`, from the left cell rightwards. */
  method PushBottomLeft(img: seq<seq<Rgb>>, widthP: nat, conf: StripConf, mode: ParseMode,
                        colors: seq<Rgb>) returns (out: seq<Rgb>)
    requires Parsable(img, widthP, conf)
    ensures out == colors + SegmentColors(img, widthP, conf, mode, BottomLeft)
  {
    var heightP := |img|;
    var hc := (widthP - conf.cornerSize * 2) / conf.width;
    var half := (conf.width - conf.bottomGap) / 2;
    var t := conf.thickness;
    ghost var segment := SegmentColors(img, widthP, conf, mode, BottomLeft);
    out := colors;
    var i := 0;
    while i < half
      invariant 0 <= i <= half
      invariant out == colors + segment[..i]
    {
      var c := CellColor(img, widthP, conf, mode, BottomLeft, i,
                         Rect(heightP - t, heightP, i * hc, (i + 1) * hc));
      assert segment[..i + 1] == segment[..i] + [c];
      out := out + [c];
      i := i + 1;
    }
  }

  /** Cutting a window between two rows gives the rows above the cut followed by the
      rows below it. */
  lemma {:induction false} WindowSplit(img: seq<seq<Rgb>>, r0: nat, r: nat, r1: nat, c0: nat, c1: nat)
    requires r0 <= r <= r1 <= |img| && c0 <= c1
    requires forall y :: r0 <= y < r1 ==> c1 <= |img[y]|
    ensures Window(img, r0, r1, c0, c1) == Window(img, r0, r, c0, c1) + Window(img, r, r1, c0, c1)
    decreases r - r0
  {
    if r0 < r {
      WindowSplit(img, r0 + 1, r, r1, c0, c1);
      var row := img[r0][c0..c1];
      var above, below := Window(img, r0 + 1, r, c0, c1), Window(img, r, r1, c0, c1);
      assert row + (above + below) == (row + above) + below;
    }
  }

  /** The window lists its rectangle row by row: pixel `(r, c)` sits at offset
      `(r - r0) * (c1 - c0) + (c - c0)`. */
  lemma WindowAt(img: seq<seq<Rgb>>, r0: nat, r1: nat, c0: nat, c1: nat, r: nat, c: nat)
    requires r0 <= r1 <= |img| && c0 <= c1
    requires forall y :: r0 <= y < r1 ==> c1 <= |img[y]|
    requires r0 <= r < r1 && c0 <= c < c1
    ensures var k := (r - r0) * (c1 - c0) + (c - c0);
            0 <= k < |Window(img, r0, r1, c0, c1)| && Window(img, r0, r1, c0, c1)[k] == img[r][c]
  {
    WindowSplit(img, r0, r, r1, c0, c1);
    WindowLength(img, r0, r, c0, c1);
    var before, from := Window(img, r0, r, c0, c1), Window(img, r, r1, c0, c1);
    var k := (r - r0) * (c1 - c0) + (c - c0);
    assert |before| + (c - c0) == k;
    assert from == img[r][c0..c1] + Window(img, r + 1, r1, c0, c1);
    assert from[c - c0] == img[r][c];
    assert c - c0 < |from|;
    assert (before + from)[k] == from[c - c0];
  }

  /** A window of an area of one colour holds only that colour. */
  lemma {:induction false} WindowUniform(img: seq<seq<Rgb>>, r0: nat, r1: nat, c0: nat, c1: nat, color: Rgb)
    requires r0 <= r1 <= |img| && c0 <= c1
    requires forall y :: r0 <= y < r1 ==> c1 <= |img[y]|
    requires forall y, x :: 0 <= y < |img| && 0 <= x < |img[y]| ==> img[y][x] == color
    ensures forall k :: 0 <= k < |Window(img, r0, r1, c0, c1)| ==> Window(img, r0, r1, c0, c1)[k] == color
    decreases r1 - r0
  {
    if r0 < r1 {
      WindowUniform(img, r0 + 1, r1, c0, c1, color);
      var row := img[r0][c0..c1];
      assert forall k :: 0 <= k < |row| ==> row[k] == img[r0][c0 + k];
    }
  }

  /** Along an edge the cells of a segment are `horizontal_thickness_p` or
      `vertical_thickness_p` pixels long, `thickness_p` deep, and each one starts where the
      previous one ends. */
  lemma CellsTile(widthP: nat, heightP: nat, conf: StripConf, seg: Segment, i: nat)
    requires Geometry(widthP, heightP, conf) && i + 1 < SegmentLength(conf, seg)
    ensures var a, b := CellRect(widthP, heightP, conf, seg, i), CellRect(widthP, heightP, conf, seg, i + 1);
      if seg.Right? || seg.Left? then
        a.r1 - a.r0 == VCell(heightP, conf) && a.c1 - a.c0 == conf.thickness &&
        b.r0 == a.r1 && b.c0 == a.c0 && b.c1 == a.c1
      else
        a.c1 - a.c0 == HCell(widthP, conf) && a.r1 - a.r0 == conf.thickness &&
        b.c0 == a.c1 && b.r0 == a.r0 && b.r1 == a.r1
  {
    var hc, vc := HCell(widthP, conf), VCell(heightP, conf);
    match seg
    case BottomRight =>
      BottomCellWithin(conf, widthP, hc, HalfBottom(conf), i);
    case Right =>
      CellWithin(i, conf.height, heightP - conf.cornerSize * 2);
    case Top =>
      CellWithin(i, conf.width, widthP - conf.cornerSize * 2);
    case Left =>
      CellWithin(i, conf.height, heightP - conf.cornerSize * 2);
    case BottomLeft =>
      CellWithin(i, conf.width, widthP - conf.cornerSize * 2);
  }

  /** The bottom-right cells begin `corner_size_p` pixels after the last bottom-left
      cell ends, whatever `bottom_gap` is: the gap in the strip does not shift them. */
  lemma BottomHalvesAdjacent(widthP: nat, heightP: nat, conf: StripConf)
    requires Geometry(widthP, heightP, conf) && HalfBottom(conf) > 0
    ensures CellRect(widthP, heightP, conf, BottomRight, 0).c0 ==
            CellRect(widthP, heightP, conf, BottomLeft, HalfBottom(conf) - 1).c1 + conf.cornerSize
  {
    var hc, half := HCell(widthP, conf), HalfBottom(conf);
    CellWithin(half - 1, conf.width, widthP - conf.cornerSize * 2);
  }

  /** The ring has `2 * half_bottom_length + 2 * height + width` LEDs. */
  lemma BorderLength(img: seq<seq<Rgb>>, widthP: nat, conf: StripConf, mode: ParseMode)
    requires Parsable(img, widthP, conf)
    ensures |BorderColors(img, widthP, conf, mode)| == 2 * HalfBottom(conf) + 2 * conf.height + conf.width
  {
  }

  /** That length is the strip's `2 * width + 2 * height - bottom_gap` exactly when
      `width - bottom_gap` is even; otherwise the ring is one LED short. */
  lemma BorderLengthMatchesStrip(conf: StripConf)
    requires conf.bottomGap <= conf.width
    ensures 2 * HalfBottom(conf) + 2 * conf.height + conf.width
            == 2 * conf.width + 2 * conf.height - conf.bottomGap - (conf.width - conf.bottomGap) % 2
    ensures 2 * HalfBottom(conf) + 2 * conf.height + conf.width == 2 * conf.width + 2 * conf.height - conf.bottomGap
            <==> (conf.width - conf.bottomGap) % 2 == 0
  {
  }

  /** Where a segment's first LED sits in the ring. */
  function SegmentStart(conf: StripConf, seg: Segment): nat
    requires conf.bottomGap <= conf.width
  {
    var half, h, w := HalfBottom(conf), conf.height, conf.width;
    match seg
    case BottomRight => 0
    case Right => half
    case Top => half + h
    case Left => half + h + w
    case BottomLeft => half + 2 * h + w
  }

  /** Where each LED of the ring looks: LED `k` of a segment sits at the segment's start
      plus `k` and shows the aggregate of cell `CellIndex(k)`, so the bottom-right cells
      run from the right end inwards, the right cells from the bottom up, the top cells
      from right to left, the left cells from the top down and the bottom-left cells from
      the left end inwards. */
  lemma BorderLayout(img: seq<seq<Rgb>>, widthP: nat, conf: StripConf, mode: ParseMode, seg: Segment, k: nat)
    requires Parsable(img, widthP, conf) && k < SegmentLength(conf, seg)
    ensures SegmentStart(conf, seg) + k < |BorderColors(img, widthP, conf, mode)|
    ensures BorderColors(img, widthP, conf, mode)[SegmentStart(conf, seg) + k] ==
      Process(mode, Cell(img, widthP, conf, seg, CellIndex(conf, seg, k)))
  {
    SegmentPlacement(conf, seg, k,
      SegmentColors(img, widthP, conf, mode, BottomRight), SegmentColors(img, widthP, conf, mode, Right),
      SegmentColors(img, widthP, conf, mode, Top), SegmentColors(img, widthP, conf, mode, Left),
      SegmentColors(img, widthP, conf, mode, BottomLeft));
  }

  /** The ring is the five segments one after the other. */
  lemma SegmentPlacement(conf: StripConf, seg: Segment, k: nat,
                         br: seq<Rgb>, rt: seq<Rgb>, tp: seq<Rgb>, lf: seq<Rgb>, bl: seq<Rgb>)
    requires conf.bottomGap <= conf.width && k < SegmentLength(conf, seg)
    requires |br| == HalfBottom(conf) && |rt| == conf.height && |tp| == conf.width
    requires |lf| == conf.height && |bl| == HalfBottom(conf)
    ensures SegmentStart(conf, seg) + k < |br + rt + tp + lf + bl|
    ensures (br + rt + tp + lf + bl)[SegmentStart(conf, seg) + k] ==
      (match seg case BottomRight => br case Right => rt case Top => tp case Left => lf case BottomLeft => bl)[k]
  {
    FivePartIndex(br, rt, tp, lf, bl, k);
  }

  lemma FivePartIndex<T>(a: seq<T>, b: seq<T>, c: seq<T>, d: seq<T>, e: seq<T>, k: nat)
    ensures k < |a| ==> (a + b + c + d + e)[k] == a[k]
    ensures k < |b| ==> (a + b + c + d + e)[|a| + k] == b[k]
    ensures k < |c| ==> (a + b + c + d + e)[|a| + |b| + k] == c[k]
    ensures k < |d| ==> (a + b + c + d + e)[|a| + |b| + |c| + k] == d[k]
    ensures k < |e| ==> (a + b + c + d + e)[|a| + |b| + |c| + |d| + k] == e[k]
  {
  }

  /** A screen of one colour lights every LED of the ring in that colour, under either
      parse mode. */
  lemma UniformImage(img: seq<seq<Rgb>>, widthP: nat, conf: StripConf, mode: ParseMode, color: Rgb)
    requires Parsable(img, widthP, conf)
    requires forall y, x :: 0 <= y < |img| && 0 <= x < widthP ==> img[y][x] == color
    ensures forall k :: 0 <= k < |BorderColors(img, widthP, conf, mode)| ==>
              BorderColors(img, widthP, conf, mode)[k] == color
  {
    forall seg: Segment, i: nat | i < SegmentLength(conf, seg)
      ensures Process(mode, Cell(img, widthP, conf, seg, i)) == color
    {
      var w := Cell(img, widthP, conf, seg, i);
      CellUniform(img, widthP, conf, seg, i, color);
      UniformWindow(w, color);
    }
  }

  lemma CellUniform(img: seq<seq<Rgb>>, widthP: nat, conf: StripConf, seg: Segment, i: nat, color: Rgb)
    requires Parsable(img, widthP, conf) && i < SegmentLength(conf, seg)
    requires forall y, x :: 0 <= y < |img| && 0 <= x < |img[y]| ==> img[y][x] == color
    ensures forall k :: 0 <= k < |Cell(img, widthP, conf, seg, i)| ==> Cell(img, widthP, conf, seg, i)[k] == color
  {
    var r := CellRect(widthP, |img|, conf, seg, i);
    WindowUniform(img, r.r0, r.r1, r.c0, r.c1, color);
  }
}
