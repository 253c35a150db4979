/** One LED colour (src/core/led_color.rs): three 8-bit channels, the channel-order
    permutation, and the order of the steps of the hardware tint. */
module LedColors {

  /** An unsigned 8-bit value (`u8`). */
  type byte = b: int | 0 <= b < 256

  /** `image::Rgb<u8>`: red, green, blue. */
  datatype Rgb = Rgb(r: byte, g: byte, b: byte)

  /** `LedColor` is a wrapper around `Rgb<u8>` with no further state. */
  type LedColor = Rgb

  datatype Channel = Red | Green | Blue

  /** The channels of a colour as the array `[r, g, b]`. */
  function ToArray(c: Rgb): (a: seq<byte>)
    ensures |a| == 3
  {
    [c.r, c.g, c.b]
  }

  /** `From<[u8; 3]> for LedColor`. */
  function FromArray(a: seq<byte>): (c: LedColor)
    requires |a| == 3
    ensures ToArray(c) == a
  {
    Rgb(a[0], a[1], a[2])
  }

  lemma FromArrayOfToArray(c: LedColor)
    ensures FromArray(ToArray(c)) == c
  {
  }

  /** `Default for LedColor`: black. */
  function Default(): (c: LedColor)
    ensures ToArray(c) == [0, 0, 0]
  {
    FromArray([0, 0, 0])
  }

  /** The channel orders a strip can be wired in, as far as `apply_order` knows them. */
  datatype Order = RGB | GRB | BRG | BGR | RBG

  /** The order a configured string selects; an unrecognised string means `RGB`. */
  function OrderOf(name: string): (o: Order)
    ensures name == "GRB" <==> o == GRB
    ensures name == "BRG" <==> o == BRG
    ensures name == "BGR" <==> o == BGR
    ensures name == "RBG" <==> o == RBG
  {
    if name == "RGB" then RGB
    else if name == "GRB" then GRB
    else if name == "BRG" then BRG
    else if name == "BGR" then BGR
    else if name == "RBG" then RBG
    else RGB
  }

  /** The wire position of each channel under order `o`. */
  function Permute(o: Order, r: byte, g: byte, b: byte): (t: (byte, byte, byte))
  {
    match o
    case RGB => (r, g, b)
    case GRB => (g, r, b)
    case BRG => (b, r, g)
    case BGR => (b, g, r)
    case RBG => (r, b, g)
  }

  /** `apply_order`: the channel permutation selected by the configured order string. */
  function ApplyOrder(order: string, r: byte, g: byte, b: byte): (t: (byte, byte, byte))
    ensures Unpermute(OrderOf(order), t) == (r, g, b)
  {
    Permute(OrderOf(order), r, g, b)
  }

  /** Every order result is a permutation of its inputs: no channel value is lost or
      duplicated. */
  lemma ApplyOrderPermutes(order: string, r: byte, g: byte, b: byte)
    ensures var t := ApplyOrder(order, r, g, b); multiset{t.0, t.1, t.2} == multiset{r, g, b}
  {
  }

  /** The inverse permutation, written independently: it puts each wire position back
      into its red, green or blue slot. */
  function Unpermute(o: Order, t: (byte, byte, byte)): (c: (byte, byte, byte))
  {
    match o
    case RGB => t
    case GRB => (t.1, t.0, t.2)
    case BRG => (t.1, t.2, t.0)
    case BGR => (t.2, t.1, t.0)
    case RBG => (t.0, t.2, t.1)
  }

  /** Every channel order is a bijection: undoing it restores the colour, and two colours
      wired identically were identical. */
  lemma ApplyOrderInjective(order: string, x: (byte, byte, byte), y: (byte, byte, byte))
    ensures Unpermute(OrderOf(order), ApplyOrder(order, x.0, x.1, x.2)) == x
    ensures ApplyOrder(order, x.0, x.1, x.2) == ApplyOrder(order, y.0, y.1, y.2) ==> x == y
  {
  }

  /** An unrecognised order string wires the channels as red, green, blue. */
  lemma UnknownOrderIsIdentity(order: string, r: byte, g: byte, b: byte)
    requires order !in {"RGB", "GRB", "BRG", "BGR", "RBG"}
    ensures ApplyOrder(order, r, g, b) == (r, g, b)
  {
  }

  /** Applying an order twice: `GRB`, `BGR` and `RBG` are swaps, so twice is the identity;
      `BRG` is a rotation, which twice still moves every channel when all differ. */
  lemma OrderTwice(o: Order, r: byte, g: byte, b: byte)
    ensures var t := Permute(o, r, g, b);
            var u := Permute(o, t.0, t.1, t.2);
            (o != BRG ==> u == (r, g, b)) &&
            (o == BRG && r != g && g != b && r != b ==> u != (r, g, b))
  {
  }

  /** The tint configuration. Gamma, saturation and brightness are floating-point steps
      (`powf`, `clamp`, `round`); they are kept abstract as byte-valued functions, one
      per channel where the configuration holds one value per channel. */
  datatype TintProfile = TintProfile(
    gamma: (Channel, byte) -> byte,
    saturation: (byte, byte, byte) -> (byte, byte, byte),
    brightness: (Channel, byte) -> byte,
    order: string)

  /** The colour after gamma, saturation and brightness, before the channel reorder. */
  function Balanced(c: LedColor, tint: TintProfile): (t: (byte, byte, byte))
  {
    var (r, g, b) := (tint.gamma(Red, c.r), tint.gamma(Green, c.g), tint.gamma(Blue, c.b));
    var (r, g, b) := tint.saturation(r, g, b);
    (tint.brightness(Red, r), tint.brightness(Green, g), tint.brightness(Blue, b))
  }

  /** `apply_tint`: the three bytes sent for one LED. */
  function ApplyTint(c: LedColor, tint: TintProfile): (bytes: seq<byte>)
    ensures |bytes| == 3
  {
    var r := tint.gamma(Red, c.r);
    var g := tint.gamma(Green, c.g);
    var b := tint.gamma(Blue, c.b);
    var (r, g, b) := tint.saturation(r, g, b);
    var r := tint.brightness(Red, r);
    var g := tint.brightness(Green, g);
    var b := tint.brightness(Blue, b);
    var (r, g, b) := ApplyOrder(tint.order, r, g, b);
    [r, g, b]
  }

  /** The reorder is the last step of the tint: the wire bytes are the balanced colour,
      permuted, so the tint never changes which values are sent, only their positions. */
  lemma TintReordersLast(c: LedColor, tint: TintProfile)
    ensures var t := Balanced(c, tint);
            var w := ApplyOrder(tint.order, t.0, t.1, t.2);
            ApplyTint(c, tint) == [w.0, w.1, w.2]
    ensures var t := Balanced(c, tint);
            multiset(ApplyTint(c, tint)) == multiset{t.0, t.1, t.2}
    ensures OrderOf(tint.order) == RGB ==>
            var t := Balanced(c, tint); ApplyTint(c, tint) == [t.0, t.1, t.2]
  {
    var t := Balanced(c, tint);
    var w := ApplyOrder(tint.order, t.0, t.1, t.2);
    ApplyOrderPermutes(tint.order, t.0, t.1, t.2);
    assert multiset([w.0, w.1, w.2]) == multiset{w.0, w.1, w.2};
  }
}
