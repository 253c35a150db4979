# plight LED driver — a Dafny model

plight drives an addressable LED strip mounted around a screen (an "ambilight").
It reduces the border of a screen image, a wallpaper or a solid colour to one colour
per LED. It orders and tints each colour for the strip's wiring, then sends the
frame over a serial link to a microcontroller.

This project models the deterministic core of that pipeline and proves what each part
promises:

- **The frame buffer.** `LedSequence` and its in-place operations (`led_sequence.dfy`).
- **One LED colour.** The channel-order permutation and the step order of the tint
  (`led_color.dfy`).
- **The serial protocol.** Both strip drivers write a frame: the sync prefix
  `[89, 124, 234]`, a nonce whose check byte XORs it to `0x55`, then 3 bytes per LED.
  - The current driver classifies the reversed 3-byte reply (`serial_port.dfy`,
    `arduino_strip.dfy`).
  - The older driver ignores every write error (`strip.dfy`).
- **The screen-border mapping** of `parse_image` (`image_processing.dfy`). It walks the
  five border segments, computes the cell of every LED and reduces it with the
  integer average or median. The aggregators are in `color_math.dfy`; the sort they
  use is in `sorting.dfy`.
- **The generic lower-middle median.** It sorts an array in place (`math.dfy`).
- **The hexadecimal colour parsers.** One is fallible, one panicking (`text.dfy`,
  `converters.dfy`, `utils.dfy`). The RGBA-to-RGB byte stripping is in `converters.dfy`.
- **The audio-visualiser gradient ring** (`cava_wall_dcol.dfy`).
- **The sliding minimum/maximum `Timer`** (`time.dfy`).
- **The wallpaper source and the wallpaper mode loop.** Both re-read the image only
  when the wallpaper daemon's answer changes (`wallpaper_source.dfy`,
  `wallpaper_mode.dfy`).
- **The solid-colour source and mode** (`color_source.dfy`, `color_mode.dfy`).
- **The LED count derived from the configuration** (`config.dfy`).

Some things outside the program become parameters:

- **The global configuration.** Strip geometry, order string and tint are passed in as
  arguments or fields.
- **The serial port.** It is an append-only log of written bytes, a flag saying
  whether writes succeed, and the reply the device gives to the next read.
- **Random nonce bytes, clock instants and the daemon's answers.** These are inputs.
- **Opening an image.** This is a function parameter.
- **The floating-point tint steps and `Mul<f64>`.** These are byte-valued function
  parameters.

Imperative code is modelled as methods with loops or as classes with fields, each proved
against a specification function. Pure code is modelled as functions with lemmas.

## Model

| member | source | states |
|---|---|---|
| LedSequences.LedSequence.constructor | src/core/led_sequence.rs:11-15 | `new(len)` holds exactly `len` LEDs, all the default black colour |
| LedSequences.LedSequence.FromIter | src/core/led_sequence.rs:89-97 | the LEDs are the iterator's colours, in order and count |
| LedSequences.LedSequence.SetColor | src/core/led_sequence.rs:19-21 | every LED shows the colour and the length is kept |
| LedSequences.LedSequence.SetColors | src/core/led_sequence.rs:23-25 | the contents become a copy of the slice, so the length becomes the slice's |
| LedSequences.LedSequence.SetSequence | src/core/led_sequence.rs:27-29 | the contents become the other sequence's contents |
| LedSequences.LedSequence.AdjustedHalfsValue | src/core/led_sequence.rs:33-41 | the loop over both halves leaves exactly `ScaledHalves` of the old contents |
| LedSequences.ScaledHalvesSplit | src/core/led_sequence.rs:33-41 | length is kept; LEDs before `len / 2` are scaled by `levels.1`, the rest by `levels.0` |
| LedSequences.HalvesBalanced | src/core/led_sequence.rs:34-35 | the first half never has more LEDs than the second, and at most one fewer |
| LedSequences.LedSequence.IsEmpty | src/core/led_sequence.rs:49-51 | true exactly when the length is 0 |
| LedSequences.LedSequence.Len | src/core/led_sequence.rs:45-47 | `len` is the number of LEDs held |
| LedSequences.LedSequence.Get | src/core/led_sequence.rs:53-55 | `Some` exactly when the index is below the length, and then the LED at that index |
| LedColors.FromArray | src/core/led_color.rs:70-74 | the channels of the array are kept in order (`ToArray` inverts it) |
| LedColors.FromArrayOfToArray | src/core/led_color.rs:70-74 | converting a colour to its array and back gives the colour |
| LedColors.Default | src/core/led_color.rs:76-80 | the default colour is black `[0, 0, 0]` |
| LedColors.OrderOf | src/core/led_color.rs:53-59 | each of `GRB`, `BRG`, `BGR`, `RBG` selects its own order, and only that string does |
| LedColors.ApplyOrderPermutes | src/core/led_color.rs:52-61 | every order result is a permutation of `(r, g, b)`: the multiset of channels is kept |
| LedColors.ApplyOrder | src/core/led_color.rs:52-61 | the independently written inverse of the selected order recovers `(r, g, b)` from the wired triple; `ApplyOrderPermutes` and `ApplyOrderInjective` state the permutation and injectivity |
| LedColors.ApplyOrderInjective | src/core/led_color.rs:52-61 | an independently written inverse undoes every order, so no two colours are wired alike |
| LedColors.UnknownOrderIsIdentity | src/core/led_color.rs:59 | an unrecognised order string gives `(r, g, b)` |
| LedColors.OrderTwice | src/core/led_color.rs:54-60 | `GRB`, `BGR` and `RBG` are swaps (twice is the identity); `BRG` is a rotation |
| LedColors.ApplyTint | src/core/led_color.rs:12-28 | `apply_tint` always gives exactly 3 bytes |
| LedColors.TintReordersLast | src/core/led_color.rs:12-28 | the reorder is the last step, after gamma, saturation and brightness: the bytes are the balanced colour, permuted |
| SerialPorts.Checksum | src/core/arduino_strip.rs:59-61 | the check byte satisfies `hi ^ lo ^ chk == 0x55` |
| SerialPorts.ChecksumUnique | src/core/arduino_strip.rs:59-61 | it is the only byte that does |
| SerialPorts.PayloadAt | src/core/arduino_strip.rs:65-68 | LED `i`'s 3 bytes sit at offset `3 * i` of the payload, in sequence order |
| SerialPorts.FrameLayout | src/core/arduino_strip.rs:14-68 | a frame is `6 + 3 * n` bytes: prefix `[89, 124, 234]`, `hi`, `lo`, the check byte, then LED `i` at `6 + 3 * i` |
| ArduinoStrips.AcknowledgeReversedPrefix | src/core/arduino_strip.rs:72-79 | a reply is matched exactly when it is `[234, 124, 89]`, the prefix reversed |
| ArduinoStrips.Acknowledge | src/core/arduino_strip.rs:72-89 | a failed read, and only that, is `Failed`; a timeout, and only that, is `Silent`; a mismatch carries a reversed reply that is not the prefix |
| ArduinoStrips.AcknowledgeTolerant | src/core/arduino_strip.rs:72-89 | a mismatched reply or a timeout still gives `Ok`; only another read error fails |
| ArduinoStrips.AckResult | src/core/arduino_strip.rs:81-88 | the result is an error exactly on a read failure, and then it is `PostfixReading` |
| ArduinoStrips.OutcomeCases | src/core/arduino_strip.rs:38-89 | a wrong length gives `WrongLength(given, actual)` and sends nothing, even with a poisoned lock; a poisoned lock sends nothing and succeeds; otherwise the frame layout holds and `Ok` unless the read fails |
| ArduinoStrips.Outcome | src/core/arduino_strip.rs:38-89 | nothing is sent exactly when the length is wrong, the lock is poisoned or the port fails; once a frame is sent, only a failed read makes the result an error |
| ArduinoStrips.ArduinoStrip.SetLeds | src/core/arduino_strip.rs:38-90 | the result and the bytes written are those `Outcome` gives |
| ArduinoStrips.ArduinoStrip.Exchange | src/core/arduino_strip.rs:55-89 | on a healthy port the whole frame is written and the reply decides the result; on a failing port the first write's I/O error is returned and nothing is written |
| ArduinoStrips.ArduinoStrip.WriteTinted | src/core/arduino_strip.rs:65-68 | the loop appends the payload of tinted bytes, LED after LED |
| ArduinoStrips.ArduinoStrip.WriteBody | src/core/arduino_strip.rs:59-70 | after the prefix, the nonce with its check byte, then the tinted payload, then the flush |
| ArduinoStrips.ArduinoStrip.ReadPostfix | src/core/arduino_strip.rs:72-89 | reversing the buffer in place and comparing it gives the classification of `Acknowledge` |
| LegacyStrips.ReorderBeforeAdjust | src/strip.rs:46-57 | this driver reorders before its gamma/contrast/saturation step, which therefore sees permuted channels |
| LegacyStrips.LegacyBytes | src/strip.rs:46-57 | every LED becomes exactly 3 bytes; `ReorderBeforeAdjust` states their order of steps |
| LegacyStrips.LegacyFrameLayout | src/strip.rs:7-58 | the frame is prefix, `hi`, `lo`, check byte, then 3 reordered-then-adjusted bytes per LED in order |
| LegacyStrips.Strip.SetLeds | src/strip.rs:26-59 | a wrong length writes nothing; otherwise the whole frame is written, and no write error is ever reported |
| LegacyStrips.Strip.WriteHeader | src/strip.rs:36-44 | the prefix, then `hi`, `lo` and the check byte as single-byte writes |
| LegacyStrips.Strip.WriteLeds | src/strip.rs:46-58 | the loop appends 3 bytes per LED, in input order |
| ImageProcessing.ParseImage | src/utils/image_processing.rs:12-81 | the sequence is replaced by the five segment walks, in order |
| ImageProcessing.PushBottomRight | src/utils/image_processing.rs:31-41 | the bottom-right loop, running `i` downwards, appends exactly that segment's colours |
| ImageProcessing.PushRight | src/utils/image_processing.rs:43-50 | the right loop appends exactly that segment's colours |
| ImageProcessing.PushTop | src/utils/image_processing.rs:52-59 | the top loop appends exactly that segment's colours |
| ImageProcessing.PushLeft | src/utils/image_processing.rs:61-68 | the left loop appends exactly that segment's colours |
| ImageProcessing.PushBottomLeft | src/utils/image_processing.rs:70-77 | the bottom-left loop appends exactly that segment's colours |
| ImageProcessing.CellColor | src/utils/image_processing.rs:35-40 | the window sliced from the bounds the loop computes, aggregated, is that LED's colour |
| ImageProcessing.Aggregate | src/utils/image_processing.rs:15-18 | the parse mode selects the average or the median |
| ImageProcessing.CellRect | src/utils/image_processing.rs:20-75 | every cell, with the cell sizes and half-bottom length as computed, is non-empty and inside the image |
| ImageProcessing.CellsTile | src/utils/image_processing.rs:35-75 | bottom and top cells are `thickness` rows deep and one horizontal cell long; side cells are `thickness` columns wide; consecutive cells abut |
| ImageProcessing.BottomHalvesAdjacent | src/utils/image_processing.rs:32-75 | the bottom-right cells start `corner_size_p` after the last bottom-left cell ends, whatever the gap |
| ImageProcessing.BorderLength | src/utils/image_processing.rs:31-79 | the ring has `2 * half_bottom_length + 2 * height + width` LEDs |
| ImageProcessing.BorderLengthMatchesStrip | src/utils/image_processing.rs:23 | that is `2w + 2h - gap` exactly when `w - gap` is even, one short otherwise |
| ImageProcessing.BorderLayout | src/utils/image_processing.rs:34-77 | LED `k` of each segment sits at the segment's start plus `k`. It shows its cell's aggregate, with cells in the order bottom-right, right and top descending, then left and bottom-left ascending |
| ImageProcessing.WindowLength | src/utils/image_processing.rs:35-39 | a window holds one pixel per row and column of its rectangle |
| ImageProcessing.WindowAt | src/utils/image_processing.rs:40 | pixel `(r, c)` sits in the window in row-major order, as `slice.iter()` yields it |
| ImageProcessing.UniformImage | src/utils/image_processing.rs:15-40 | an image of one colour lights every LED in that colour, under either parse mode |
| ColorMath.Average | src/utils/color_math.rs:3-22 | the accumulator loop computes `AverageOf`: per channel the total divided by the count, rounded down |
| ColorMath.AverageWithinRange | src/utils/color_math.rs:10-19 | each channel of the average lies between that channel's least and greatest input value |
| ColorMath.Median | src/utils/color_math.rs:24-40 | sorting each channel and indexing at `len / 2` computes `MedianOf` |
| ColorMath.MedianRank | src/utils/color_math.rs:29-37 | the median is the upper middle: at most `len / 2` values below it and `(len - 1) / 2` above |
| ColorMath.MedianFromInput | src/utils/parse_modes.rs:25-37 | each median channel is one of that channel's input values |
| ColorMath.UniformWindow | src/utils/parse_modes.rs:3-40 | a window of one colour reduces to that colour under both aggregators |
| ColorMath.ChannelSumBounds | src/utils/parse_modes.rs:10-15 | the channel total of `n` pixels lies in `[n * lo, n * hi]` |
| Sorting.SortSpec | src/utils/color_math.rs:29-31 | `sort` gives an ascending permutation of its input |
| Sorting.SortRank | src/utils/color_math.rs:29-35 | the element at sorted index `k` has at most `k` input values below it and at most `len - 1 - k` above |
| Sorting.SortedElementFromInput | src/utils/color_math.rs:29-37 | every element of the sorted vector comes from the input |
| MathUtils.SortInPlace | src/utils/math.rs:9 | the array becomes the ascending permutation of its old contents |
| MathUtils.Median | src/utils/math.rs:1-20 | empty gives `None` and leaves the array; otherwise the array is sorted and the result is `MedianOf` |
| MathUtils.MedianIsLowerMiddle | src/utils/math.rs:12-19 | `None` exactly for empty input; both branches pick sorted index `(len - 1) / 2` |
| MathUtils.MedianOf | src/utils/math.rs:1-20 | `None` exactly for an empty slice; `MedianIsLowerMiddle` and `MedianRank` state which element it is |
| MathUtils.MedianRank | src/utils/math.rs:9-19 | the result is an input element with at most `(len - 1) / 2` elements below it and `len / 2` above |
| Text.TrimStart | src/utils/converters.rs:6 | `trim_start_matches('#')` leaves a suffix, not starting with `#`, after a run of `#` only |
| Text.TrimStartIdempotent | src/utils/converters.rs:6 | trimming twice is trimming once; a leading `#` changes nothing |
| Text.TrimStartPrefix | src/utils.rs:32 | any number of leading `#` before a text not starting with `#` is removed exactly |
| Text.ParseFormatByte | src/utils/converters.rs:7-9 | every byte's two-digit rendering parses back to it under `from_str_radix(_, 16)` |
| Text.ParseByte | src/utils/converters.rs:7-9 | a parse succeeds only on a non-empty text that is an optional `+` followed by at least one hexadecimal digit and digits only; `ParsePair` gives the value |
| Text.ParseByteCaseInsensitive | src/utils/converters.rs:7-9 | `from_str_radix(_, 16)` gives the same result whatever the case of the letters |
| Text.ParsePair | src/utils/converters.rs:7-9 | a pair parses exactly when it is two hex digits or `+` and one digit, with value `16 * high + low` |
| Text.SplitOnce | src/modes/sources/wallpaper.rs:64 | `None` exactly when the pattern does not occur; otherwise before + pattern + after, split at the first occurrence |
| Text.RemoveAll | src/modes/sources/wallpaper.rs:66 | no newline is left |
| Text.RemoveAllCounts | src/modes/sources/wallpaper.rs:66 | every other character keeps its number of occurrences |
| Text.RemoveAllAppend | src/modes/wallpaper.rs:53 | removal distributes over concatenation |
| Text.RemoveAllAbsent | src/modes/wallpaper.rs:53 | removing an absent character changes nothing |
| Converters.HexToRgb | src/utils/converters.rs:5-11 | every failure is a parse error, returned by the first pair that does not parse |
| Converters.HexRoundTrip | src/utils/converters.rs:5-11 | formatting a colour as six hex digits and parsing it gives it back, after any number of `#` and before any trailing text |
| Converters.HexToRgbEarlyError | src/utils/converters.rs:7-8 | a bad first pair is an error even with nothing after it; a good first pair with nothing after it panics |
| Converters.HexToRgbUpperCase | src/utils/converters.rs:6-10 | upper-case digits after a `#` parse: `#FF8000` is `(255, 128, 0)` |
| Converters.HexToRgbInvalid | src/utils/converters.rs:7 | `#zz` is an error |
| Converters.HexToRgbCaseInsensitive | src/utils/converters.rs:5-11 | upper-casing the letters changes neither whether the parser panics nor its result |
| Converters.FromRaw | src/utils/converters.rs:24 | `from_raw` succeeds exactly when the buffer is large enough for the dimensions |
| Converters.StripAlphaLength | src/utils/converters.rs:20-22 | the output has 3 bytes per 4-byte chunk |
| Converters.StripAlphaChunk | src/utils/converters.rs:20-22 | output chunk `p` is bytes `0..3` of input chunk `p`: only every fourth byte is dropped |
| Converters.StripAlphaFits | src/utils/converters.rs:18-24 | an RGBA buffer that fits its dimensions still fits them as RGB, so the `unwrap` succeeds |
| Converters.Rgba8ToRgb8 | src/utils/converters.rs:13-25 | width and height are kept and the data is the input with every fourth byte removed |
| Utils.AgreesWithFallible | src/utils.rs:31-37 | where this parser does not panic it agrees with the fallible one, and it panics exactly where that one fails |
| Utils.HexToRgb | src/utils.rs:31-37 | where it does not panic, the fallible parser does not panic either and returns `Ok` of the same colour |
| Utils.HexRoundTrip | src/utils.rs:31-37 | a six-hex-digit rendering, after any number of `#`, parses back to the colour |
| CavaWallDcol.GradientColors | src/modes/cava_wall_dcol.rs:19-37 | the gradient has 7 entries |
| CavaWallDcol.GradientEnds | src/modes/cava_wall_dcol.rs:29-37 | the gradient runs from colour 8; entries 4, 5 and 6 are all colour 2 |
| CavaWallDcol.ColorIndex | src/modes/cava_wall_dcol.rs:51-60 | `color_index` is always below 7 |
| CavaWallDcol.ColorIndexMonotone | src/modes/cava_wall_dcol.rs:50-60 | along a side the index starts at 0, never decreases, and the `% 7` never wraps |
| CavaWallDcol.ColorIndexReachesEnd | src/modes/cava_wall_dcol.rs:50-51 | with at least 7 LEDs per side the last LED takes entry 6 |
| CavaWallDcol.Layout | src/modes/cava_wall_dcol.rs:39-68 | the colours built are exactly `Ring`: bottom right, right, top, left, bottom left |
| CavaWallDcol.PushRightSide | src/modes/cava_wall_dcol.rs:50-53 | the right loop appends entry `6 - color_index(i)` for each `i` |
| CavaWallDcol.PushLeftSide | src/modes/cava_wall_dcol.rs:59-62 | the left loop appends entry `color_index(i)` for each `i` |
| CavaWallDcol.RingLength | src/modes/cava_wall_dcol.rs:39-68 | the ring has `2 * ((width - gap) / 2) + 2 * height + width` LEDs, as many as the screen ring |
| CavaWallDcol.RingLayout | src/modes/cava_wall_dcol.rs:44-68 | both bottoms show entry 6, the top entry 0; right LED `k` shows `6 - color_index(k)` and left LED `k` shows `color_index(k)` |
| CavaWallDcol.SidesMirror | src/modes/cava_wall_dcol.rs:52-61 | the two sides are mirror images in the gradient |
| CavaWallDcol.CornersContinuous | src/modes/cava_wall_dcol.rs:44-68 | with 7 or more LEDs per side the gradient is continuous at all four corners |
| Timers.Initial | src/utils/time.rs:15-25 | `min = last_min = usize::MAX`, `max = last_max = 0`, `len = length` |
| Timers.Timer.constructor | src/utils/time.rs:15-25 | the fields are `Initial(length, now)` |
| Timers.Timer.UpdateValue | src/utils/time.rs:27-66 | the fields become `Update` of the old ones; the result is the percentage, or `None` where a subtraction underflows |
| Timers.Timer.OfferValue | src/utils/time.rs:31-35 | a value above the candidate maximum becomes it; only otherwise may it become the candidate minimum |
| Timers.OfferCandidates | src/utils/time.rs:31-35 | the candidate maximum never falls and covers the value; the candidate minimum never rises and covers the value only when it did not raise the maximum; no other field changes |
| Timers.Track | src/utils/time.rs:37-45 | afterwards `min <= v <= max`, the bounds only widen, a moved bound restarts its window at `now`, and nothing else changes |
| Timers.ResetWindows | src/utils/time.rs:47-57 | an expired minimum window takes the candidate and restarts it at `usize::MAX` and `now`; an expired maximum window takes the candidate and restarts it at 0 and `now`; an unexpired window is unchanged |
| Timers.Timer.TrackValue | src/utils/time.rs:37-45 | a new extreme replaces the bound and restarts its window |
| Timers.Timer.CloseWindows | src/utils/time.rs:47-57 | a window that lasted `len` seconds hands its bound to the candidate, which restarts |
| Timers.Percent | src/utils/time.rs:59-65 | defined exactly when the bounds are equal or neither subtraction underflows; equal bounds give 0 |
| Timers.Update | src/utils/time.rs:27-57 | time stamps never pass `now`; `len` is kept |
| Timers.NoResetInRange | src/utils/time.rs:37-65 | with no window closing, `min <= v <= max` and the result is in `[0, 100]` |
| Timers.UnderflowAfterReset | src/utils/time.rs:31-65 | as written, new(1), 5 at 0 ms, then 10 at 1000 ms resets `min` to `usize::MAX`, and `10 - min` underflows |
| Timers.CorrectedInRange | src/utils/time.rs:31-35 | with both candidates offered, every update keeps `min <= v <= max` and returns a percentage in `[0, 100]` |
| Timers.CorrectedAvoidsUnderflow | src/utils/time.rs:31-35 | on the same inputs the corrected update returns 100 |
| WallpaperSources.ImagePath | src/modes/sources/wallpaper.rs:64-66 | `None` exactly when `image: ` does not occur; otherwise the text after its first occurrence with every newline removed |
| WallpaperSources.WallpaperSrc.constructor | src/modes/sources/wallpaper.rs:38-48 | nothing remembered: empty previous answer and no colours |
| WallpaperSources.WallpaperSrc.PollNext | src/modes/sources/wallpaper.rs:53-78 | the new answer, colours and result are those `Poll` gives |
| WallpaperSources.Poll | src/modes/sources/wallpaper.rs:53-78 | any answer is remembered, a failed command keeps the old one; a success returns the colours now cached; a failure keeps the cached colours; a repeated answer returns the cache; a failed command is `CommandFailed` |
| WallpaperSources.PollErrors | src/modes/sources/wallpaper.rs:53-78 | the result is an error exactly when the command fails, or a new answer has no `image: `, or its image cannot be opened; a failed command is `CommandFailed` and an unopenable image `ImageError` |
| WallpaperSources.SameOutputCached | src/modes/sources/wallpaper.rs:58-60 | the remembered answer returns the cached colours and changes nothing |
| WallpaperSources.NewOutputRemembered | src/modes/sources/wallpaper.rs:62-76 | a new answer is remembered even when parsing fails; colours change only on success; no `image: ` gives `WrongWallpaperPath(output)` |
| WallpaperSources.StaleAfterFailure | src/modes/sources/wallpaper.rs:58-62 | after a failed parse, the same answer returns the colours from before the failure |
| WallpaperSources.FreshSourceEmptyOutput | src/modes/sources/wallpaper.rs:38-60 | a fresh source answers an empty output with no colours |
| WallpaperSources.ImagePathExample | src/modes/sources/wallpaper.rs:64-66 | `out: image: /w` plus a newline gives the path `/w` |
| WallpaperModes.Step | src/modes/wallpaper.rs:46-64 | an unchanged answer is skipped; a changed one is remembered; no `image: ` skips; otherwise the loop panics exactly when the image at the path does not open, and draws its colours when it does |
| WallpaperModes.RunFrom | src/modes/wallpaper.rs:38-67 | no more draws than answers |
| WallpaperModes.NewImageDrawn | src/modes/wallpaper.rs:50-64 | a new answer naming an image that opens draws that image's colours first, and the run goes on from that answer |
| WallpaperModes.PollWallpaper | src/modes/wallpaper.rs:23-68 | the loop with `continue` draws exactly what `RunFrom` gives, starting from the empty answer |
| WallpaperModes.RepeatSkipped | src/modes/wallpaper.rs:46-48 | an answer repeated straight away changes nothing |
| WallpaperModes.ConstantAnswerDrawsOnce | src/modes/wallpaper.rs:36-50 | a constant answer is drawn at most once, and never when it is the previous one |
| ColorSources.ColorSrc.PollNext | src/modes/sources/color.rs:24-29 | the length is kept, every LED shows the configured colour, and the result is `Ok` |
| ColorSources.PollFixedPoint | src/modes/sources/color.rs:24-29 | every LED carries the configured channels, and polling again changes nothing |
| ColorSources.DefaultIsAmber | src/modes/sources/color.rs:11-12 | the default colour is `(192, 168, 31)` |
| ColorModes.Sent | src/modes/color.rs:20-26 | no more colours are sent than configured |
| ColorModes.PollColor | src/modes/color.rs:16-31 | one frame per sent colour, each `length` copies of it |
| ColorModes.LastSeen | src/modes/color.rs:20-26 | the colour held in `prev_color` after the configured colours: `prev` before any, otherwise one of them |
| ColorModes.SentSnoc | src/modes/color.rs:20-29 | one more pass sends its colour exactly when it differs from the colour seen last, and leaves what was sent before unchanged |
| ColorModes.SentChanges | src/modes/color.rs:18-26 | the first colour sent differs from black, and no colour is sent twice in a row |
| ColorModes.SentFromConfigured | src/modes/color.rs:20-26 | every colour sent was configured |
| ColorModes.ConstantColorSentOnce | src/modes/color.rs:18-26 | a constant configuration is sent once, or never when it is black |
| Config.NumLeds | src/config.rs:51-53 | `num_leds + bottom_gap == 2w + 2h`, so it is at most `2w + 2h` |
| Config.ManualStrip | src/config.rs:33-53 | the fallback 29/15/7 strip has 81 LEDs, as many as the screen ring for it |
| Config.NumLedsLimit | src/config.rs:51-53 | the `u8` count overflows for a 64 by 64 strip and not for 64 by 63 |

## Left out

- Audio capture, RMS and decibel levels, and flicker smoothing: floating point and
  foreign event loops.
- The floating-point tint steps (gamma, saturation, brightness, contrast) and
  `Mul<f64>`: they are byte-valued function parameters, so only their order and
  their place in the frame are proved.
- `rotate_smooth`: deprecated and floating point.
- `get_mut` and the `IntoIterator` views of `LedSequence`: they hand out references
  and compute nothing.
- Opening the serial port, `clear` of its input buffer, and the bytes `flush` pushes:
  the port is a byte log. A port either accepts every write or fails the first, so
  partial writes are not modelled.
- `write` in the older driver may write part of a buffer. The model writes it whole or
  not at all.
- The `Arc<Mutex>` lock: a poisoned lock is a field of the strip.
- Screen capture, image decoding (`image::open`), the `swww query` subprocess, UTF-8
  decoding of its output, and config-file and theme-file loading. Their results are
  inputs: a string, `None` for a failed command, or a function from a path to colours.
- The hand-off of the cava and colour modes to the strip. Those modes call a
  `set_leds` whose signature differs from the `Strip` in `src/strip.rs`. The model
  returns the frames they would send.
- The capacity hints of `Vec::with_capacity`: they change no value.
- `u64` overflow of the channel totals and `usize` overflow of `i * 7` and of the cell
  bounds. Integers are unbounded, and the inputs that overflow need more than 2^56
  pixels or LEDs.
- Text is a sequence of characters. The slicing in the hex parsers is by character,
  so a multi-byte character that makes `&hex[0..2]` panic at a character boundary is
  not modelled.
- The standard library's sort is an insertion sort on values. `MathUtils.SortInPlace`
  writes the sorted values back into the array. Sort stability and the
  `partial_cmp().unwrap()` panic on incomparable values (NaN) are not modelled; the
  median is instantiated at integers.
- The `loop` of the wallpaper and colour modes runs for ever. The model runs it over a
  finite prefix of the daemon's answers or of the configured colours. `sleep` and the
  pacing between passes are not modelled.
- Config.NumLeds: requires the `u8` arithmetic not to overflow. A debug build panics
  there; a release build would wrap.
- Timers.UpdateValue: the `f64` percentage is an exact real. A panic on unsigned
  underflow is `None`, as in a debug build.
- Timers.Timer.UpdateValue: the clock is the `now` argument in milliseconds, and
  `elapsed` is read before the fields change. `Instant::now()` inside the call is the
  same instant.
- WallpaperModes.PollWallpaper: the command and UTF-8 `expect` panics are not
  modelled, because the answers are given as strings.

## Findings

| source | as written | input that shows it | evidently intended | confidence | as-written member | corrected member |
|---|---|---|---|---|---|---|
| src/utils/time.rs:31-35 | `if v > last_max { .. } else if v < last_min { .. }`: a value that raises the candidate maximum is never offered as candidate minimum. After the minimum window closes, `min` can be reset to `usize::MAX`, above the current value, and `(v - self.min)` underflows | `Timer::new(1)`; `update_value(5)` at 0 ms; `update_value(10)` at 1000 ms: `min` becomes `usize::MAX`, `max` 10, and `10 - usize::MAX` underflows | two independent `if`s, so every value is a candidate for both bounds and `min <= v <= max` always holds | not executed | Timers.UnderflowAfterReset | Timers.CorrectedInRange |
