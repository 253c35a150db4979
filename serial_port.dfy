/** The serial link as the strip drivers see it, and the framing both drivers share
    (src/core/arduino_strip.rs, src/strip.rs). The device itself is outside the model:
    a port is a log of the bytes written to it, a flag saying whether writes succeed,
    and the reply the device will give to the next read. */
module SerialPorts {
  import opened Wrappers
  import opened Errors
  import opened LedColors
  import opened Bits

  /** The outcome of `read_exact` into a 3-byte buffer. */
  datatype ReadOutcome = Received(b0: byte, b1: byte, b2: byte) | ReadTimedOut | ReadFailed

  class Port {
    /** Every byte written so far, in order (append-only). */
    var written: seq<byte>
    /** False once the device is gone: every write and flush then fails. */
    var healthy: bool
    /** What the device answers to the next 3-byte read. */
    var reply: ReadOutcome

    constructor (healthy: bool, reply: ReadOutcome)
      ensures written == [] && this.healthy == healthy && this.reply == reply
    {
      written := [];
      this.healthy := healthy;
      this.reply := reply;
    }

    /** `write_all`: all of `bytes`, or an I/O error and nothing. */
    method WriteAll(bytes: seq<byte>) returns (r: Result<Unit, Error>)
      modifies this`written
      ensures r == if healthy then Ok(Unit) else Err(Io(Other))
      ensures written == if healthy then old(written) + bytes else old(written)
    {
      if healthy {
        written := written + bytes;
        r := Ok(Unit);
      } else {
        r := Err(Io(Other));
      }
    }

    /** `flush`: nothing is buffered in the model, so only the error can be observed. */
    method Flush() returns (r: Result<Unit, Error>)
      ensures r == if healthy then Ok(Unit) else Err(Io(Other))
    {
      r := if healthy then Ok(Unit) else Err(Io(Other));
    }

    /** `read_exact` of three bytes. */
    method ReadExact() returns (r: ReadOutcome)
      ensures r == reply
    {
      r := reply;
    }
  }

  /** `PREFIX`: the 3-byte sync marker that opens every frame. */
  const Prefix: seq<byte> := [89, 124, 234]

  function Xor(a: byte, b: byte): byte
  {
    XorByte(a, b)
  }

  /** The check byte of the nonce: `hi ^ lo ^ 0x55`. */
  function Checksum(hi: byte, lo: byte): (chk: byte)
    ensures Xor(Xor(hi, lo), chk) == 0x55
  {
    XorCancels(Xor(hi, lo), 0x55);
    Xor(Xor(hi, lo), 0x55)
  }

  /** The checksum is the only byte that makes `hi ^ lo ^ chk` equal `0x55`, so a
      receiver can recognise a nonce from its three bytes alone. */
  lemma ChecksumUnique(hi: byte, lo: byte, chk: byte)
    requires Xor(Xor(hi, lo), chk) == 0x55
    ensures chk == Checksum(hi, lo)
  {
    XorCancels(Xor(hi, lo), chk);
  }

  /** The 3-byte nonce: two random bytes and their check byte. */
  function Nonce(hi: byte, lo: byte): (n: seq<byte>)
    ensures |n| == 3
  {
    [hi, lo, Checksum(hi, lo)]
  }

  /** The LED payload: the 3 bytes `encode` gives each LED, LED after LED. */
  function Payload(leds: seq<LedColor>, encode: LedColor -> seq<byte>): (p: seq<byte>)
    requires forall c :: |encode(c)| == 3
    ensures |p| == 3 * |leds|
  {
    if leds == [] then []
    else Payload(leds[..|leds| - 1], encode) + encode(leds[|leds| - 1])
  }

  /** LED `i`'s bytes sit at offset `3 * i` of the payload, in sequence order. */
  lemma {:induction false} PayloadAt(leds: seq<LedColor>, encode: LedColor -> seq<byte>, i: nat)
    requires forall c :: |encode(c)| == 3
    requires i < |leds|
    ensures Payload(leds, encode)[3 * i .. 3 * i + 3] == encode(leds[i])
  {
    var n := |leds| - 1;
    var front := Payload(leds[..n], encode);
    if i < n {
      PayloadAt(leds[..n], encode, i);
      assert Payload(leds, encode)[3 * i .. 3 * i + 3] == front[3 * i .. 3 * i + 3];
    } else {
      assert Payload(leds, encode)[3 * i .. 3 * i + 3] == encode(leds[n]);
    }
  }

  /** Appending one LED appends its 3 bytes: the step a writing loop takes. */
  lemma PayloadSnoc(leds: seq<LedColor>, encode: LedColor -> seq<byte>, i: nat)
    requires forall c :: |encode(c)| == 3
    requires i < |leds|
    ensures Payload(leds[..i + 1], encode) == Payload(leds[..i], encode) + encode(leds[i])
  {
    assert leds[..i + 1][..i] == leds[..i];
  }

  /** A whole frame: prefix, nonce, then the payload. */
  function Frame(hi: byte, lo: byte, leds: seq<LedColor>, encode: LedColor -> seq<byte>): (f: seq<byte>)
    requires forall c :: |encode(c)| == 3
  {
    Prefix + Nonce(hi, lo) + Payload(leds, encode)
  }

  /** The frame layout on the wire: 6 header bytes then 3 per LED; the sync prefix; the
      nonce with a check byte that cancels it to `0x55`; LED `i` at `6 + 3 * i`. */
  lemma FrameLayout(hi: byte, lo: byte, leds: seq<LedColor>, encode: LedColor -> seq<byte>)
    requires forall c :: |encode(c)| == 3
    ensures var f := Frame(hi, lo, leds, encode);
            |f| == 6 + 3 * |leds| && f[..3] == [89, 124, 234] && f[3] == hi && f[4] == lo &&
            Xor(Xor(f[3], f[4]), f[5]) == 0x55
    ensures forall i :: 0 <= i < |leds| ==>
            Frame(hi, lo, leds, encode)[6 + 3 * i .. 9 + 3 * i] == encode(leds[i])
  {
    var f := Frame(hi, lo, leds, encode);
    var p := Payload(leds, encode);
    forall i | 0 <= i < |leds|
      ensures f[6 + 3 * i .. 9 + 3 * i] == encode(leds[i])
    {
      PayloadAt(leds, encode, i);
      assert f[6 + 3 * i .. 9 + 3 * i] == p[3 * i .. 3 * i + 3];
    }
  }
}
