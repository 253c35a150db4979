/** The solid-colour source (src/modes/sources/color.rs): every LED shows the configured
    colour. */
module ColorSources {
  import opened Wrappers
  import opened Errors
  import opened LedColors
  import opened LedSequences

  /** The default of `ColorSrcConf::color`. */
  const DefaultColor: seq<byte> := [192, 168, 31]

  class ColorSrc {
    constructor ()
    {
    }

    /** `poll_next`: paint the whole sequence in the configured colour (`color`, a
        `[u8; 3]`). */
    method PollNext(ledSequence: LedSequence, color: seq<byte>) returns (r: Result<Unit, Error>)
      requires |color| == 3
      modifies ledSequence
      ensures ledSequence.ledColors == Filled(|old(ledSequence.ledColors)|, FromArray(color))
      ensures r == Ok(Unit)
    {
      var c := FromArray(color);
      ledSequence.SetColor(c);
      return Ok(Unit);
    }
  }

  /** Polling keeps the length, gives every LED the configured channels, and polling
      again changes nothing. */
  lemma PollFixedPoint(n: nat, color: seq<byte>)
    requires |color| == 3
    ensures |Filled(n, FromArray(color))| == n
    ensures forall i :: 0 <= i < n ==> ToArray(Filled(n, FromArray(color))[i]) == color
    ensures Filled(|Filled(n, FromArray(color))|, FromArray(color)) == Filled(n, FromArray(color))
  {
  }

  /** Left unconfigured, the strip glows `[192, 168, 31]`. */
  lemma DefaultIsAmber()
    ensures FromArray(DefaultColor) == Rgb(192, 168, 31)
  {
  }
}
