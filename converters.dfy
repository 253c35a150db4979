/** The fallible colour parser and the RGBA-to-RGB conversion (src/utils/converters.rs). */
module Converters {
  import opened Wrappers
  import opened Errors
  import opened LedColors
  import opened Text

  /** A colour written as six lower-case hexadecimal digits, `{:02x}{:02x}{:02x}`. */
  function FormatRgb(c: Rgb): (s: string)
    ensures |s| == 6 && s[0] != '#'
  {
    FormatByte(c.r) + FormatByte(c.g) + FormatByte(c.b)
  }

  /** `hex_to_rgb` slices the trimmed text at `[0..2]`, `[2..4]` and `[4..6]`, and each
      `?` returns before the next slice is taken. It panics exactly when a slice it
      reaches runs past the end of the text. */
  predicate SlicesInBounds(hex: string)
  {
    var t := TrimStart(hex, '#');
    |t| >= 2 && (ParseByte(t[0..2]).None? || (|t| >= 4 && (ParseByte(t[2..4]).None? || |t| >= 6)))
  }

  /** `hex_to_rgb`: strip the leading `#`s, then parse three base-16 pairs; a pair that
      does not parse is returned as an error. */
  function HexToRgb(hex: string): (r: Result<Rgb, Error>)
    requires SlicesInBounds(hex)
    ensures r.Err? ==> r.error == ParseIntError
  {
    var t := TrimStart(hex, '#');
    match ParseByte(t[0..2])
    case None => Err(ParseIntError)
    case Some(r) =>
      match ParseByte(t[2..4])
      case None => Err(ParseIntError)
      case Some(g) =>
        match ParseByte(t[4..6])
        case None => Err(ParseIntError)
        case Some(b) => Ok(Rgb(r, g, b))
  }

  /** The case of the hexadecimal letters changes neither where the parser panics nor
      what it returns. */
  lemma HexToRgbCaseInsensitive(hex: string)
    ensures SlicesInBounds(Upper(hex)) <==> SlicesInBounds(hex)
    ensures SlicesInBounds(hex) ==> HexToRgb(Upper(hex)) == HexToRgb(hex)
  {
    var t, u := TrimStart(hex, '#'), TrimStart(Upper(hex), '#');
    TrimStartUpper(hex);
    PairsUpper(t);
    assert |u| == |t|;
    assert |t| >= 2 ==> ParseByte(u[0..2]) == ParseByte(t[0..2]);
    assert |t| >= 4 ==> ParseByte(u[2..4]) == ParseByte(t[2..4]);
    assert |t| >= 6 ==> ParseByte(u[4..6]) == ParseByte(t[4..6]);
  }

  /** The three pairs, where in bounds, parse the same after upper-casing. */
  lemma PairsUpper(t: string)
    ensures |t| >= 2 ==> ParseByte(Upper(t)[0..2]) == ParseByte(t[0..2])
    ensures |t| >= 4 ==> ParseByte(Upper(t)[2..4]) == ParseByte(t[2..4])
    ensures |t| >= 6 ==> ParseByte(Upper(t)[4..6]) == ParseByte(t[4..6])
  {
    if |t| >= 2 { PairUpper(t, 0); }
    if |t| >= 4 { PairUpper(t, 2); }
    if |t| >= 6 { PairUpper(t, 4); }
  }

  /** The pair at `k` parses the same after upper-casing. */
  lemma PairUpper(t: string, k: nat)
    requires k + 2 <= |t|
    ensures ParseByte(Upper(t)[k..k + 2]) == ParseByte(t[k..k + 2])
  {
    assert Upper(t)[k..k + 2] == Upper(t[k..k + 2]);
    ParseByteCaseInsensitive(t[k..k + 2]);
  }

  /** Formatting a colour as six hexadecimal digits and parsing it gives the colour
      back, whatever number of `#` comes first and whatever follows the sixth digit. */
  lemma HexRoundTrip(c: Rgb, hashes: string, rest: string)
    requires forall i :: 0 <= i < |hashes| ==> hashes[i] == '#'
    ensures SlicesInBounds(hashes + FormatRgb(c) + rest)
    ensures HexToRgb(hashes + FormatRgb(c) + rest) == Ok(c)
  {
    var f := FormatRgb(c);
    TrimStartPrefix(hashes, f + rest, '#');
    assert hashes + f + rest == hashes + (f + rest);
    ParseFormatted(c, rest);
  }

  /** The three pairs of a formatted colour, whatever follows it, parse to its
      channels. */
  lemma ParseFormatted(c: Rgb, rest: string)
    ensures var t := FormatRgb(c) + rest;
            |t| >= 6 && ParseByte(t[0..2]) == Some(c.r) && ParseByte(t[2..4]) == Some(c.g) &&
            ParseByte(t[4..6]) == Some(c.b)
  {
    var t := FormatRgb(c) + rest;
    assert t[0..2] == FormatByte(c.r);
    assert t[2..4] == FormatByte(c.g);
    assert t[4..6] == FormatByte(c.b);
    ParseFormatByte(c.r);
    ParseFormatByte(c.g);
    ParseFormatByte(c.b);
  }

  /** A first pair that is not a number is an error, not a panic, even when nothing
      follows it; and a good first pair with nothing after it is a panic. */
  lemma HexToRgbEarlyError(c0: char, c1: char)
    ensures c0 != '#' && ParseByte([c0, c1]).None? ==>
              SlicesInBounds([c0, c1]) && HexToRgb([c0, c1]) == Err(ParseIntError)
    ensures c0 != '#' && ParseByte([c0, c1]).Some? ==> !SlicesInBounds([c0, c1])
  {
    var s := [c0, c1];
    if c0 != '#' {
      assert TrimStart(s, '#') == s;
      assert s[0..2] == s;
    }
  }

  /** Upper- and lower-case digits are both accepted, after any number of `#`. */
  lemma HexToRgbUpperCase()
    ensures SlicesInBounds("#FF8000") && HexToRgb("#FF8000") == Ok(Rgb(255, 128, 0))
  {
    TrimStartPrefix("#", "FF8000", '#');
    assert "#FF8000" == "#" + "FF8000";
    var t := "FF8000";
    assert t[0..2] == ['F', 'F'] && t[2..4] == ['8', '0'] && t[4..6] == ['0', '0'];
    assert TrimStart("#FF8000", '#') == t;
    ParsePair('F', 'F');
    assert DigitValue('F') == Some(15);
    assert ParseByte(t[0..2]) == Some(255);
    ParsePair('8', '0');
    assert DigitValue('8') == Some(8) && DigitValue('0') == Some(0);
    assert ParseByte(t[2..4]) == Some(128);
    ParsePair('0', '0');
    assert ParseByte(t[4..6]) == Some(0);
  }

  lemma HexToRgbInvalid()
    ensures SlicesInBounds("#zz") && HexToRgb("#zz") == Err(ParseIntError)
  {
    TrimStartPrefix("#", "zz", '#');
    assert "#zz" == "#" + "zz";
    assert "zz"[0..2] == ['z', 'z'];
    assert TrimStart("#zz", '#') == "zz";
    ParsePair('z', 'z');
    assert DigitValue('z') == None;
  }

  /** An 8-bit RGBA image: `width * height` pixels of four bytes, row by row. The
      buffer may be longer than the pixels need, never shorter. */
  datatype RgbaImage = RgbaImage(width: nat, height: nat, data: seq<byte>)

  /** An 8-bit RGB image. */
  datatype RgbImage = RgbImage(width: nat, height: nat, data: seq<byte>)

  predicate RgbaFits(img: RgbaImage)
  {
    |img.data| >= 4 * (img.width * img.height)
  }

  predicate RgbFits(img: RgbImage)
  {
    |img.data| >= 3 * (img.width * img.height)
  }

  /** `ImageBuffer::from_raw`: `None` when the buffer is too small for the dimensions. */
  function FromRaw(width: nat, height: nat, data: seq<byte>): (r: Option<RgbImage>)
    ensures r.Some? ==> RgbFits(r.value) && r.value.data == data
    ensures r.Some? <==> |data| >= 3 * (width * height)
  {
    if |data| >= 3 * (width * height) then Some(RgbImage(width, height, data)) else None
  }

  /** `chunks(4)` ends with a shorter chunk when the length is not a multiple of 4, and
      `chunk[0..3]` panics unless that chunk has 3 bytes. */
  predicate WholeChunks(n: nat)
  {
    n % 4 == 0 || n % 4 == 3
  }

  /** The first three bytes of every 4-byte chunk of `data`, in order. */
  function StripAlpha(data: seq<byte>): (out: seq<byte>)
    requires WholeChunks(|data|)
  {
    if |data| < 4 then data else data[..3] + StripAlpha(data[4..])
  }

  /** The output has 3 bytes per chunk. */
  lemma {:induction false} StripAlphaLength(data: seq<byte>)
    requires WholeChunks(|data|)
    ensures |StripAlpha(data)| == 3 * ((|data| + 1) / 4)
  {
    if |data| >= 4 {
      StripAlphaLength(data[4..]);
    }
  }

  /** Chunk `p` of the output is the red, green and blue bytes of chunk `p` of the
      input: only every fourth byte, the alpha, is dropped. */
  lemma {:induction false} StripAlphaChunk(data: seq<byte>, p: nat)
    requires WholeChunks(|data|) && p < (|data| + 1) / 4
    ensures 3 * p + 3 <= |StripAlpha(data)| &&
            StripAlpha(data)[3 * p .. 3 * p + 3] == data[4 * p .. 4 * p + 3]
  {
    StripAlphaLength(data);
    if p > 0 {
      var tail := data[4..];
      assert (|data| + 1) / 4 == (|tail| + 1) / 4 + 1;
      StripAlphaChunk(tail, p - 1);
      var rest := StripAlpha(tail);
      assert StripAlpha(data) == data[..3] + rest;
      ChunkShift(data[..3], rest, 3 * (p - 1));
      ChunkShift(data[..4], tail, 4 * (p - 1));
      assert data[..4] + tail == data;
    }
  }

  /** A 3-byte slice past a prefix `a` of `a + b` is the same slice of `b`. */
  lemma ChunkShift(a: seq<byte>, b: seq<byte>, k: nat)
    requires k + 3 <= |b|
    ensures (a + b)[|a| + k .. |a| + k + 3] == b[k .. k + 3]
  {
  }

  /** The end of the chunk that starts at `i`. */
  function ChunkEnd(i: nat, n: nat): (j: nat)
    requires i < n
    ensures i < j <= n && j - i <= 4
  {
    if i + 4 <= n then i + 4 else n
  }

  /** One chunk of the walk: its first three bytes, then the rest of the input. */
  lemma StripAlphaStep(bytes: seq<byte>, i: nat)
    requires i < |bytes| && WholeChunks(|bytes| - i)
    ensures var j := ChunkEnd(i, |bytes|);
            j - i >= 3 && WholeChunks(|bytes| - j) &&
            StripAlpha(bytes[i..]) == bytes[i..j][0..3] + StripAlpha(bytes[j..])
  {
    var j := ChunkEnd(i, |bytes|);
    if j == i + 4 {
      assert bytes[i..][4..] == bytes[j..];
    } else {
      assert bytes[j..] == [];
    }
  }

  /** An RGBA buffer large enough for its dimensions loses a quarter of its bytes and
      is still large enough for them as RGB. */
  lemma StripAlphaFits(data: seq<byte>, width: nat, height: nat)
    requires WholeChunks(|data|) && |data| >= 4 * (width * height)
    ensures |StripAlpha(data)| >= 3 * (width * height)
  {
    StripAlphaLength(data);
  }

  /** `rgba8_to_rgb8`: copy the first three bytes of each 4-byte chunk, then rebuild an
      image of the same dimensions from them. */
  method Rgba8ToRgb8(input: RgbaImage) returns (output: RgbImage)
    requires RgbaFits(input) && WholeChunks(|input.data|)
    ensures output.width == input.width && output.height == input.height
    ensures output.data == StripAlpha(input.data)
    ensures RgbFits(output)
  {
    var width, height := input.width, input.height;
    var bytes := input.data;
    var outputData: seq<byte> := [];
    var i := 0;
    while i < |bytes|
      invariant 0 <= i <= |bytes| && WholeChunks(|bytes| - i)
      invariant outputData + StripAlpha(bytes[i..]) == StripAlpha(bytes)
    {
      var chunk := bytes[i .. ChunkEnd(i, |bytes|)];
      StripAlphaStep(bytes, i);
      outputData := outputData + chunk[0..3];
      i := i + |chunk|;
    }
    assert bytes[i..] == [];
    StripAlphaFits(bytes, width, height);
    var image := FromRaw(width, height, outputData);
    output := image.value;
  }
}
