/** The audio-visualiser gradient mode (src/modes/cava_wall_dcol.rs): a 7-colour
    gradient read from the visualiser's theme, laid out around the same five-segment
    ring as the screen modes. */
module CavaWallDcol {
  import opened LedColors
  import opened LedSequences
  import Utils
  import opened ImageProcessing

  /** `GRADIENT_LENGTH`. */
  const GradientLength: nat := 7

  /** The gradient colours of the theme file, as hexadecimal text. */
  datatype CavaGradients = CavaGradients(color2: string, color5: string, color6: string,
                                         color7: string, color8: string)

  /** Each colour must parse, since the panicking `hex_to_rgb` of src/utils.rs reads it. */
  predicate Loadable(g: CavaGradients)
  {
    Utils.WellFormedHex(g.color2) && Utils.WellFormedHex(g.color5) && Utils.WellFormedHex(g.color6) &&
    Utils.WellFormedHex(g.color7) && Utils.WellFormedHex(g.color8)
  }

  /** `gradient_colors`: colours 8, 7, 6, 5, then colour 2 three times. */
  function GradientColors(g: CavaGradients): (gc: seq<Rgb>)
    requires Loadable(g)
    ensures |gc| == GradientLength
  {
    [Utils.HexToRgb(g.color8), Utils.HexToRgb(g.color7), Utils.HexToRgb(g.color6),
     Utils.HexToRgb(g.color5), Utils.HexToRgb(g.color2), Utils.HexToRgb(g.color2),
     Utils.HexToRgb(g.color2)]
  }

  /** The gradient runs from colour 8 to colour 2, and its last three entries are all
      colour 2, so the bottom of the ring and the lowest part of the sides share it. */
  lemma GradientEnds(g: CavaGradients)
    requires Loadable(g)
    ensures GradientColors(g)[0] == Utils.HexToRgb(g.color8)
    ensures GradientColors(g)[4] == GradientColors(g)[5] == GradientColors(g)[6] == Utils.HexToRgb(g.color2)
  {
    var c2, c8 := Utils.HexToRgb(g.color2), Utils.HexToRgb(g.color8);
    assert GradientColors(g) == [c8, Utils.HexToRgb(g.color7), Utils.HexToRgb(g.color6),
                                 Utils.HexToRgb(g.color5), c2, c2, c2];
  }

  /** `color_index`: which gradient entry the `i`-th LED of a side takes. */
  function ColorIndex(i: nat, height: nat): (ci: nat)
    requires height > 0
    ensures ci < GradientLength
  {
    (i * GradientLength / height) % GradientLength
  }

  lemma DivMonotone(a: nat, b: nat, d: nat)
    requires a <= b && d > 0
    ensures a / d <= b / d
  {
    var qa, qb := a / d, b / d;
    if qa > qb {
      assert d * qb + d <= d * qa by {
        ColorMath.MulSucc(qb, d);
        MulLe(qb + 1, qa, d);
      }
    }
  }

  /** A quotient is below `m` when the dividend is below `d * m`. */
  lemma DivBelow(a: nat, d: nat, m: nat)
    requires d > 0 && a < d * m
    ensures a / d < m
  {
    var q := a / d;
    assert d * q <= a;
    ColorMath.MulLess(d, q, m);
  }

  /** Along a side the index starts at 0 and never decreases: the `% 7` never wraps,
      because `i * 7 / height < 7` for every `i < height`. */
  lemma ColorIndexMonotone(i: nat, j: nat, height: nat)
    requires i <= j < height
    ensures ColorIndex(0, height) == 0
    ensures ColorIndex(j, height) == j * GradientLength / height
    ensures ColorIndex(i, height) <= ColorIndex(j, height)
  {
    MulLe(i, j, GradientLength);
    DivMonotone(i * GradientLength, j * GradientLength, height);
    MulLe(j + 1, height, GradientLength);
    DivBelow(j * GradientLength, height, GradientLength);
  }

  /** On a side of at least 7 LEDs the index reaches the last gradient entry at the
      side's last LED. */
  lemma ColorIndexReachesEnd(height: nat)
    requires height >= GradientLength
    ensures ColorIndex(height - 1, height) == GradientLength - 1
  {
    var a := (height - 1) * GradientLength;
    assert a == height * GradientLength - GradientLength;
    assert height * (GradientLength - 1) <= a < height * GradientLength;
    ColorMath.FloorDivBounds(a, height, GradientLength - 1, GradientLength);
    DivBelow(a, height, GradientLength);
  }

  /** The right side, walked upwards: entry `6 - color_index`. */
  function RightSide(gc: seq<Rgb>, height: nat): (s: seq<Rgb>)
    requires |gc| == GradientLength
    ensures |s| == height
  {
    seq(height, i requires 0 <= i < height => gc[GradientLength - 1 - ColorIndex(i, height)])
  }

  /** The left side: entry `color_index`. */
  function LeftSide(gc: seq<Rgb>, height: nat): (s: seq<Rgb>)
    requires |gc| == GradientLength
    ensures |s| == height
  {
    seq(height, i requires 0 <= i < height => gc[ColorIndex(i, height)])
  }

  /** The colours the mode sends: bottom right, right, top, left, bottom left. */
  function Ring(gc: seq<Rgb>, conf: StripConf): seq<Rgb>
    requires |gc| == GradientLength && conf.bottomGap <= conf.width
  {
    var half := HalfBottom(conf);
    Filled(half, gc[GradientLength - 1]) + RightSide(gc, conf.height) + Filled(conf.width, gc[0]) +
    LeftSide(gc, conf.height) + Filled(half, gc[GradientLength - 1])
  }

  /** One pass of `poll_cava_wall_dcol`'s loop up to the hand-off to the strip. The
      `bottom_gap <= width` requirement is the unsigned subtraction in the bottom
      lengths. */
  method Layout(gc: seq<Rgb>, conf: StripConf) returns (colors: seq<Rgb>)
    requires |gc| == GradientLength && conf.bottomGap <= conf.width
    ensures colors == Ring(gc, conf)
  {
    var half := (conf.width - conf.bottomGap) / 2;
    colors := [];
    colors := colors + Filled(half, gc[GradientLength - 1]);
    colors := PushRightSide(gc, conf.height, colors);
    colors := colors + Filled(conf.width, gc[0]);
    colors := PushLeftSide(gc, conf.height, colors);
    colors := colors + Filled(half, gc[GradientLength - 1]);
  }

  /** The right-side loop: `for i in 0..height`, entry `6 - color_index`. */
  method PushRightSide(gc: seq<Rgb>, height: nat, colors: seq<Rgb>) returns (out: seq<Rgb>)
    requires |gc| == GradientLength
    ensures out == colors + RightSide(gc, height)
  {
    out := colors;
    var i := 0;
    while i < height
      invariant 0 <= i <= height
      invariant out == colors + RightSide(gc, height)[..i]
    {
      var colorIndex := (i * GradientLength / height) % GradientLength;
      assert RightSide(gc, height)[..i + 1] == RightSide(gc, height)[..i] + [gc[GradientLength - 1 - colorIndex]];
      out := out + [gc[GradientLength - 1 - colorIndex]];
      i := i + 1;
    }
    assert RightSide(gc, height)[..i] == RightSide(gc, height);
  }

  /** The left-side loop: `for i in 0..height`, entry `color_index`. */
  method PushLeftSide(gc: seq<Rgb>, height: nat, colors: seq<Rgb>) returns (out: seq<Rgb>)
    requires |gc| == GradientLength
    ensures out == colors + LeftSide(gc, height)
  {
    out := colors;
    var i := 0;
    while i < height
      invariant 0 <= i <= height
      invariant out == colors + LeftSide(gc, height)[..i]
    {
      var colorIndex := (i * GradientLength / height) % GradientLength;
      assert LeftSide(gc, height)[..i + 1] == LeftSide(gc, height)[..i] + [gc[colorIndex]];
      out := out + [gc[colorIndex]];
      i := i + 1;
    }
    assert LeftSide(gc, height)[..i] == LeftSide(gc, height);
  }

  /** The ring has the same length as the screen modes' ring for the same strip:
      `2 * ((width - bottom_gap) / 2) + 2 * height + width`. */
  lemma RingLength(gc: seq<Rgb>, conf: StripConf)
    requires |gc| == GradientLength && conf.bottomGap <= conf.width
    ensures |Ring(gc, conf)| == 2 * HalfBottom(conf) + 2 * conf.height + conf.width
    ensures |Ring(gc, conf)| == SegmentStart(conf, BottomLeft) + SegmentLength(conf, BottomLeft)
  {
  }

  /** What each LED of the ring shows: both bottom segments the last gradient entry,
      the top the first, LED `k` of the right side entry `6 - color_index(k)` and LED
      `k` of the left side entry `color_index(k)`. */
  lemma RingLayout(gc: seq<Rgb>, conf: StripConf, seg: Segment, k: nat)
    requires |gc| == GradientLength && conf.bottomGap <= conf.width && k < SegmentLength(conf, seg)
    ensures SegmentStart(conf, seg) + k < |Ring(gc, conf)|
    ensures Ring(gc, conf)[SegmentStart(conf, seg) + k] ==
      match seg
      case BottomRight => gc[GradientLength - 1]
      case Right => gc[GradientLength - 1 - ColorIndex(k, conf.height)]
      case Top => gc[0]
      case Left => gc[ColorIndex(k, conf.height)]
      case BottomLeft => gc[GradientLength - 1]
  {
    var half := HalfBottom(conf);
    SegmentPlacement(conf, seg, k,
      Filled(half, gc[GradientLength - 1]), RightSide(gc, conf.height), Filled(conf.width, gc[0]),
      LeftSide(gc, conf.height), Filled(half, gc[GradientLength - 1]));
  }

  /** The two sides are mirror images in the gradient: LED `k` of the right side shows
      the entry as far from the end as LED `k` of the left side's is from the start. */
  lemma SidesMirror(gc: seq<Rgb>, height: nat, k: nat)
    requires |gc| == GradientLength && k < height
    ensures exists j :: 0 <= j < GradientLength && LeftSide(gc, height)[k] == gc[j] &&
                        RightSide(gc, height)[k] == gc[GradientLength - 1 - j]
  {
    var j := ColorIndex(k, height);
    assert LeftSide(gc, height)[k] == gc[j];
    assert RightSide(gc, height)[k] == gc[GradientLength - 1 - j];
  }

  /** With at least 7 LEDs per side the gradient is continuous at all four corners:
      the right side starts with the bottom colour and ends with the top colour, the
      left side starts with the top colour and ends with the bottom colour. */
  lemma CornersContinuous(gc: seq<Rgb>, conf: StripConf)
    requires |gc| == GradientLength && conf.height >= GradientLength
    ensures RightSide(gc, conf.height)[0] == gc[GradientLength - 1]
    ensures RightSide(gc, conf.height)[conf.height - 1] == gc[0]
    ensures LeftSide(gc, conf.height)[0] == gc[0]
    ensures LeftSide(gc, conf.height)[conf.height - 1] == gc[GradientLength - 1]
  {
    ColorIndexMonotone(0, 0, conf.height);
    ColorIndexReachesEnd(conf.height);
  }
}
