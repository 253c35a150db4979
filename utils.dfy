/** The older colour parser (src/utils.rs), which unwraps every pair instead of
    returning an error. */
module Utils {
  import opened Wrappers
  import opened LedColors
  import opened Text
  import Converters

  /** What `hex_to_rgb` needs in order not to panic: after the leading `#`s, at least
      six characters, and each of the three pairs a base-16 byte. */
  predicate WellFormedHex(hex: string)
  {
    var t := TrimStart(hex, '#');
    |t| >= 6 && ParseByte(t[0..2]).Some? && ParseByte(t[2..4]).Some? && ParseByte(t[4..6]).Some?
  }

  /** `hex_to_rgb`: strip the leading `#`s and parse the pairs `[0..2]`, `[2..4]` and
      `[4..6]`, unwrapping each. */
  function HexToRgb(hex: string): (c: Rgb)
    requires WellFormedHex(hex)
    ensures Converters.SlicesInBounds(hex) && Converters.HexToRgb(hex) == Ok(c)
  {
    var t := TrimStart(hex, '#');
    Rgb(ParseByte(t[0..2]).value, ParseByte(t[2..4]).value, ParseByte(t[4..6]).value)
  }

  /** On the texts where this version does not panic, it agrees with the fallible
      parser of src/utils/converters.rs; and those are exactly the texts on which the
      fallible one succeeds. */
  lemma AgreesWithFallible(hex: string)
    ensures WellFormedHex(hex) ==>
              Converters.SlicesInBounds(hex) && Converters.HexToRgb(hex) == Ok(HexToRgb(hex))
    ensures Converters.SlicesInBounds(hex) && Converters.HexToRgb(hex).Ok? ==> WellFormedHex(hex)
  {
  }

  /** Formatting a colour as six hexadecimal digits and parsing it gives it back. */
  lemma HexRoundTrip(c: Rgb, hashes: string)
    requires forall i :: 0 <= i < |hashes| ==> hashes[i] == '#'
    ensures WellFormedHex(hashes + Converters.FormatRgb(c))
    ensures HexToRgb(hashes + Converters.FormatRgb(c)) == c
  {
    Converters.HexRoundTrip(c, hashes, []);
    assert hashes + Converters.FormatRgb(c) + [] == hashes + Converters.FormatRgb(c);
    AgreesWithFallible(hashes + Converters.FormatRgb(c));
  }
}
