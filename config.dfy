/** The strip configuration (src/config.rs): its fields and the LED count derived from
    them. */
module Config {
  import opened LedColors
  import ImageProcessing

  /** `Conf`. `thickness` is a `u16`. */
  datatype Conf = Conf(splitCorners: bool, width: byte, hight: byte, bottomGap: byte,
                       clockwise: bool, order: string, accuracy: byte, thickness: nat,
                       debug: bool)

  /** The values used for any field the configuration file leaves out. */
  const Manual: Conf := Conf(true, 29, 15, 7, false, "RGB", 5, 250, false)

  /** `num_leds` is computed in `u8`, so every step must stay within 0..255. */
  predicate NumLedsDefined(c: Conf)
  {
    c.width * 2 + c.hight * 2 <= 255 && c.bottomGap <= c.width * 2 + c.hight * 2
  }

  /** `num_leds`: LEDs along the top and bottom and both sides, less the gap. */
  function NumLeds(c: Conf): (n: byte)
    requires NumLedsDefined(c)
    ensures n <= 2 * c.width + 2 * c.hight
    ensures n + c.bottomGap == 2 * c.width + 2 * c.hight
  {
    c.width * 2 + c.hight * 2 - c.bottomGap
  }

  /** The fallback strip has 81 LEDs, and the ring the screen mode computes for it has
      exactly as many: its `width - bottom_gap` is even. */
  lemma ManualStrip(cornerSize: nat, thickness: nat)
    ensures NumLedsDefined(Manual) && NumLeds(Manual) == 81
    ensures var s := ImageProcessing.StripConf(Manual.width, Manual.hight, Manual.bottomGap, cornerSize, thickness);
            2 * ImageProcessing.HalfBottom(s) + 2 * s.height + s.width == NumLeds(Manual)
  {
  }

  /** The count goes wrong in `u8` once the perimeter passes 255 LEDs: a 64 by 64 strip
      would need 256. */
  lemma NumLedsLimit()
    ensures !NumLedsDefined(Manual.(width := 64, hight := 64, bottomGap := 0))
    ensures NumLedsDefined(Manual.(width := 64, hight := 63, bottomGap := 0))
  {
  }
}
