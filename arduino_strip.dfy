/** The serial strip driver (src/core/arduino_strip.rs): checks the frame length, writes
    prefix, nonce and tinted LED bytes, then classifies the device's 3-byte reply. */
module ArduinoStrips {
  import opened Wrappers
  import opened Errors
  import opened LedColors
  import opened LedSequences
  import opened SerialPorts

  /** How the reply to a frame is read. */
  datatype Acknowledgement =
    | Matched
      /** The reply, reversed, is not the prefix; it is only warned about. */
    | Mismatched(reversed: seq<byte>)
      /** No reply within the port's timeout; only warned about. */
    | Silent
    | Failed

  /** The classification of the read that follows a frame: the three bytes are reversed
      and compared with `PREFIX`. */
  function Acknowledge(reply: ReadOutcome): (a: Acknowledgement)
    ensures a.Failed? <==> reply.ReadFailed?
    ensures a.Silent? <==> reply.ReadTimedOut?
    ensures a.Mismatched? ==> a.reversed != Prefix
  {
    match reply
    case Received(b0, b1, b2) =>
      if [b2, b1, b0] == Prefix then Matched else Mismatched([b2, b1, b0])
    case ReadTimedOut => Silent
    case ReadFailed => Failed
  }

  /** What `set_leds` returns for each reading of the reply: only a read error other
      than a timeout is an error. */
  function AckResult(a: Acknowledgement): (r: Result<Unit, Error>)
    ensures r.Err? <==> a.Failed?
    ensures r.Err? ==> r.error == PostfixReading(Other)
  {
    if a.Failed? then Err(PostfixReading(Other)) else Ok(Unit)
  }

  /** The device echoes the prefix backwards: `[234, 124, 89]` is the acknowledgement,
      and it is the only 3-byte reply that is. */
  lemma AcknowledgeReversedPrefix(b0: byte, b1: byte, b2: byte)
    ensures Acknowledge(Received(b0, b1, b2)) == Matched <==> [b0, b1, b2] == [234, 124, 89]
    ensures Acknowledge(Received(234, 124, 89)) == Matched
  {
    if [b2, b1, b0] == Prefix {
      assert b2 == 89 && b1 == 124 && b0 == 234;
    }
  }

  /** A wrong reply or a silent device still counts as delivered; only another read
      error fails the frame. */
  lemma AcknowledgeTolerant(reply: ReadOutcome)
    ensures AckResult(Acknowledge(reply)).Ok? <==> !reply.ReadFailed?
    ensures Acknowledge(Received(1, 2, 3)) == Mismatched([3, 2, 1])
    ensures AckResult(Acknowledge(Received(1, 2, 3))) == Ok(Unit)
  {
  }

  /** The bytes the driver sends for one LED. */
  function TintEncoder(tint: TintProfile): (e: LedColor -> seq<byte>)
    ensures forall c :: |e(c)| == 3
  {
    c => ApplyTint(c, tint)
  }

  /** The result and the bytes written by `set_leds` for `leds`, given the length the
      strip was configured with, whether the port lock is poisoned, the nonce and the
      port's behaviour. */
  function Outcome(stripLength: nat, poisoned: bool, healthy: bool, reply: ReadOutcome,
                   tint: TintProfile, hi: byte, lo: byte, leds: seq<LedColor>)
    : (o: (Result<Unit, Error>, seq<byte>))
    ensures o.1 == [] <==> (|leds| != stripLength || poisoned || !healthy)
    ensures o.0.Err? && o.1 != [] ==> reply.ReadFailed?
  {
    if |leds| != stripLength then (Err(WrongLength(|leds|, stripLength)), [])
    else if poisoned then (Ok(Unit), [])
    else if !healthy then (Err(Io(Other)), [])
    else (AckResult(Acknowledge(reply)), Frame(hi, lo, leds, TintEncoder(tint)))
  }

  /** The contract of `set_leds`, read off `Outcome`: a wrong length is reported with
      both lengths and nothing is sent, even when the lock is poisoned; a poisoned lock
      sends nothing and succeeds; otherwise the frame is prefix, nonce and 3 tinted bytes
      per LED, and the result depends on the reply alone. */
  lemma OutcomeCases(stripLength: nat, poisoned: bool, healthy: bool, reply: ReadOutcome,
                     tint: TintProfile, hi: byte, lo: byte, leds: seq<LedColor>)
    ensures var (r, sent) := Outcome(stripLength, poisoned, healthy, reply, tint, hi, lo, leds);
            (|leds| != stripLength ==> r == Err(WrongLength(|leds|, stripLength)) && sent == []) &&
            (|leds| == stripLength && poisoned ==> r == Ok(Unit) && sent == []) &&
            (|leds| == stripLength && !poisoned && healthy ==>
               |sent| == 6 + 3 * |leds| && sent[..3] == [89, 124, 234] &&
               sent[3..6] == [hi, lo, Checksum(hi, lo)] &&
               (forall i :: 0 <= i < |leds| ==> sent[6 + 3 * i .. 9 + 3 * i] == ApplyTint(leds[i], tint)) &&
               (r.Ok? <==> !reply.ReadFailed?))
  {
    var e := TintEncoder(tint);
    FrameLayout(hi, lo, leds, e);
    AcknowledgeTolerant(reply);
  }

  class ArduinoStrip {
    /** The port behind the `Arc<Mutex<..>>`. */
    const port: Port
    const stripLength: nat
    /** The tint read from the global configuration. */
    const tint: TintProfile
    /** Whether the mutex guarding the port is poisoned. */
    var poisoned: bool

    constructor (port: Port, stripLength: nat, tint: TintProfile)
      ensures this.port == port && this.stripLength == stripLength && this.tint == tint
      ensures !poisoned
    {
      this.port := port;
      this.stripLength := stripLength;
      this.tint := tint;
      poisoned := false;
    }

    /** `set_leds`: `hi` and `lo` are the two random nonce bytes. */
    method SetLeds(ledColors: LedSequence, hi: byte, lo: byte) returns (r: Result<Unit, Error>)
      modifies port`written
      ensures var o := Outcome(stripLength, poisoned, port.healthy, port.reply, tint,
                               hi, lo, ledColors.ledColors);
              r == o.0 && port.written == old(port.written) + o.1
    {
      var leds := ledColors.ledColors;
      if |leds| != stripLength {
        assert port.written == old(port.written) + [];
        return Err(WrongLength(|leds|, stripLength));
      }
      if poisoned {
        assert port.written == old(port.written) + [];
        return Ok(Unit);
      }
      r := Exchange(leds, hi, lo);
    }

    /** The part of `set_leds` done while holding the lock: write the frame, flush,
        read and classify the reply. Every write error is returned at once. */
    method Exchange(leds: seq<LedColor>, hi: byte, lo: byte) returns (r: Result<Unit, Error>)
      modifies port`written
      ensures r == if port.healthy then AckResult(Acknowledge(port.reply)) else Err(Io(Other))
      ensures port.written == old(port.written) +
                              if port.healthy then Frame(hi, lo, leds, TintEncoder(tint)) else []
    {
      ghost var log0 := port.written;
      var w := port.WriteAll(Prefix);
      if w.Err? {
        assert port.written == log0 + [];
        return w;
      }
      WriteBody(leds, hi, lo);
      assert port.written == log0 + (Prefix + Nonce(hi, lo) + Payload(leds, TintEncoder(tint)));
      r := ReadPostfix();
    }

    /** After the prefix: the nonce with its check byte, the tinted LEDs and the flush.
        The port is healthy here, so every `?` passes. */
    method WriteBody(leds: seq<LedColor>, hi: byte, lo: byte)
      requires port.healthy
      modifies port`written
      ensures port.written == old(port.written) + Nonce(hi, lo) + Payload(leds, TintEncoder(tint))
    {
      var chk := Checksum(hi, lo);
      var _ := port.WriteAll([hi, lo, chk]);
      WriteTinted(leds);
      var _ := port.Flush();
    }

    /** The loop over the LEDs: tint each colour and write its 3 bytes. The port is
        healthy here, so every `?` passes. */
    method WriteTinted(leds: seq<LedColor>)
      requires port.healthy
      modifies port`written
      ensures port.written == old(port.written) + Payload(leds, TintEncoder(tint))
    {
      ghost var log0, encode := port.written, TintEncoder(tint);
      var i := 0;
      while i < |leds|
        invariant 0 <= i <= |leds| && port.healthy
        invariant port.written == log0 + Payload(leds[..i], encode)
      {
        var colorBytes := ApplyTint(leds[i], tint);
        var _ := port.WriteAll(colorBytes);
        PayloadSnoc(leds, encode, i);
        assert colorBytes == encode(leds[i]);
        i := i + 1;
      }
      assert leds[..i] == leds;
    }

    /** Read the 3-byte reply into a buffer, reverse it in place and compare it with
        the prefix; a mismatch and a timeout are only warned about. */
    method ReadPostfix() returns (r: Result<Unit, Error>)
      ensures r == AckResult(Acknowledge(port.reply))
    {
      var reply := port.ReadExact();
      match reply {
        case Received(b0, b1, b2) =>
          var buf := new byte[3];
          buf[0], buf[1], buf[2] := b0, b1, b2;
          buf[0], buf[2] := buf[2], buf[0];
          var acknowledged := buf[..] == Prefix;
          assert acknowledged <==> Acknowledge(reply).Matched?;
          r := Ok(Unit);
        case ReadTimedOut =>
          r := Ok(Unit);
        case ReadFailed =>
          r := Err(PostfixReading(Other));
      }
    }
  }
}
