/** The older serial strip driver (src/strip.rs). It writes the same frame shape as the
    Arduino driver, but reorders the channels BEFORE its gamma/contrast/saturation step,
    and ignores every write failure, so it never reports an error. */
module LegacyStrips {
  import opened LedColors
  import opened SerialPorts

  /** The bytes this driver sends for one LED: the inline order match first, then
      `apply_gamma_contrast_saturation` (floating point, kept abstract as `adjust`). */
  function LegacyBytes(c: Rgb, order: string, adjust: (byte, byte, byte) -> (byte, byte, byte))
    : (bytes: seq<byte>)
    ensures |bytes| == 3
  {
    var (r, g, b) := ApplyOrder(order, c.r, c.g, c.b);
    var (r, g, b) := adjust(r, g, b);
    [r, g, b]
  }

  function LegacyEncoder(order: string, adjust: (byte, byte, byte) -> (byte, byte, byte))
    : (e: Rgb -> seq<byte>)
    ensures forall c :: |e(c)| == 3
  {
    c => LegacyBytes(c, order, adjust)
  }

  /** The adjustment sees the channels already in wire order: when the order is not
      the identity, the three values handed to `adjust` are permuted ones. */
  lemma ReorderBeforeAdjust(c: Rgb, order: string, adjust: (byte, byte, byte) -> (byte, byte, byte))
    ensures var t := ApplyOrder(order, c.r, c.g, c.b);
            var a := adjust(t.0, t.1, t.2);
            LegacyBytes(c, order, adjust) == [a.0, a.1, a.2] &&
            multiset{t.0, t.1, t.2} == multiset{c.r, c.g, c.b}
    ensures order == "GRB" ==> var a := adjust(c.g, c.r, c.b); LegacyBytes(c, order, adjust) == [a.0, a.1, a.2]
  {
    ApplyOrderPermutes(order, c.r, c.g, c.b);
  }

  class Strip {
    const port: Port
    /** `tint_conf.order`. */
    const order: string
    /** `apply_gamma_contrast_saturation`. */
    const adjust: (byte, byte, byte) -> (byte, byte, byte)
    const stripLength: nat

    constructor (port: Port, order: string, adjust: (byte, byte, byte) -> (byte, byte, byte), stripLength: nat)
      ensures this.port == port && this.order == order && this.adjust == adjust
      ensures this.stripLength == stripLength
    {
      this.port := port;
      this.order := order;
      this.adjust := adjust;
      this.stripLength := stripLength;
    }

    /** `set_leds`: a wrong length only prints a message; otherwise prefix, the nonce
        bytes one by one, and 3 bytes per LED, every write's result discarded. */
    method SetLeds(ledColors: seq<Rgb>, hi: byte, lo: byte)
      modifies port`written
      ensures port.written == old(port.written) +
                if |ledColors| == stripLength && port.healthy
                then Frame(hi, lo, ledColors, LegacyEncoder(order, adjust)) else []
    {
      if |ledColors| != stripLength {
        assert port.written == old(port.written) + [];
        return;
      }
      ghost var log0 := port.written;
      WriteHeader(hi, lo);
      WriteLeds(ledColors);
      if port.healthy {
        assert port.written == log0 + (Prefix + Nonce(hi, lo) + Payload(ledColors, LegacyEncoder(order, adjust)));
      }
    }

    /** The prefix, then `hi`, `lo` and the check byte in three single-byte writes. */
    method WriteHeader(hi: byte, lo: byte)
      modifies port`written
      ensures port.written == old(port.written) + if port.healthy then Prefix + Nonce(hi, lo) else []
    {
      var _ := port.WriteAll(Prefix);
      var chk := Checksum(hi, lo);
      var _ := port.WriteAll([hi]);
      var _ := port.WriteAll([lo]);
      var _ := port.WriteAll([chk]);
      if port.healthy {
        assert port.written == old(port.written) + Prefix + [hi] + [lo] + [chk];
      } else {
        assert port.written == old(port.written) + [];
      }
    }

    /** The loop over the LEDs: reorder, adjust, write 3 bytes. */
    method WriteLeds(ledColors: seq<Rgb>)
      modifies port`written
      ensures port.written == old(port.written) +
                if port.healthy then Payload(ledColors, LegacyEncoder(order, adjust)) else []
    {
      ghost var log0, encode := port.written, LegacyEncoder(order, adjust);
      ghost var healthy := port.healthy;
      var i := 0;
      while i < |ledColors|
        invariant 0 <= i <= |ledColors| && port.healthy == healthy
        invariant port.written == log0 + if healthy then Payload(ledColors[..i], encode) else []
      {
        var bytes := LegacyBytes(ledColors[i], order, adjust);
        var _ := port.WriteAll(bytes);
        PayloadSnoc(ledColors, encode, i);
        i := i + 1;
      }
      assert ledColors[..i] == ledColors;
    }
  }

  /** On a healthy port a frame of the right length is prefix, nonce and then, LED by
      LED, the reordered-then-adjusted bytes; a wrong length sends nothing. */
  lemma LegacyFrameLayout(hi: byte, lo: byte, leds: seq<Rgb>, order: string,
                          adjust: (byte, byte, byte) -> (byte, byte, byte))
    ensures var f := Frame(hi, lo, leds, LegacyEncoder(order, adjust));
            |f| == 6 + 3 * |leds| && f[..6] == [89, 124, 234, hi, lo, Checksum(hi, lo)] &&
            forall i :: 0 <= i < |leds| ==> f[6 + 3 * i .. 9 + 3 * i] == LegacyBytes(leds[i], order, adjust)
  {
    FrameLayout(hi, lo, leds, LegacyEncoder(order, adjust));
    var f := Frame(hi, lo, leds, LegacyEncoder(order, adjust));
    assert f[..6] == Prefix + Nonce(hi, lo);
  }
}
