# Cover images and clip times, modelled in Dafny

The repository is a pair of automation scripts. `create_cover_images.py`
paints diagonal-gradient cover slides with Pillow. `process_videos.py`
cuts three talk segments out of a recording with moviepy. Nearly all of
their work is library calls and file I/O. This project models the exact
integer and string logic at their core and proves what that logic
guarantees:

- **The gradient mask** (`create_gradient`). Two nested loops append one
  byte per pixel, `int(255 * (x + y) / (width + height))`, to a flat list.
  `CoverImages.CreateGradientMask` is that loop. It grows a `seq<nat>` the
  way the script grows its Python list. It is proved equal to the
  row-major specification `CoverImages.Mask`. Lemmas about `Mask` give its
  length and layout, the range of its bytes, its corners, its constancy on
  anti-diagonals and its monotonicity.
- **Hex colour parsing** (`hex_to_rgb`). The function strips every leading
  `#`, then reads the slices `[0:2]`, `[2:4]` and `[4:6]` with `int(_, 16)`.
  Python slices clamp, and the model reproduces that. Its partner is a
  `#rrggbb` serialiser, `RgbToHex`, and the round trip is proved in both
  directions. The model also states which strings are accepted, proves
  that leading `#`s and trailing characters are ignored, and evaluates the
  six colours of the three cover slides.
- **Time conversion** (`time_to_seconds`). The string is split on `:` and
  the result is `int(parts[0])*3600 + int(parts[1])*60 + int(parts[2])`.
  `str.split` is modelled together with its inverse `str.join`. Python
  evaluates the three `int(parts[k])` calls in order, so the exception
  raised (`IndexError` or `ValueError`) is the first one reached, and the
  model keeps that order. The partner is an `HH:MM:SS` formatter,
  `TimeFormat.FormatTime`, and both round trips are proved.
- **The clip table** (`CLIPS`). The three entries are converted as
  `process_clip` converts them. Each converts without error, and each asks
  moviepy for a non-empty range.

Python's exceptions become the `Err` case of `Outcomes.Result`.
`Arithmetic` holds shared facts about division.

A fraction normalised by `width + height - 2` would reach the end colour at
the far corner. The code divides by `width + height`, so
`MaskValueBelowFull` and `MaskBottomRight` prove that no mask byte reaches
255.

## Model

| member | source | states |
|---|---|---|
| CoverImages.MaskValue | create_cover_images.py:20 | The byte appended for pixel (x, y), `int(255 * (x + y) / (width + height))` taken as the floor quotient. It has no contract of its own: `MaskAt`, `MaskValueBelowFull`, `MaskAntiDiagonal` and `MaskMonotone` state its meaning. |
| CoverImages.CreateGradientMask | create_cover_images.py:15-21 | The nested `for y` / `for x` loops that append to `mask_data` return exactly the row-major mask `Mask(width, height)`. |
| CoverImages.RowsLength | create_cover_images.py:17-20 | After n rows of the outer loop, the list holds n*width bytes. |
| CoverImages.RowsAt | create_cover_images.py:17-20 | After n rows, index y*width + x holds the byte of pixel (x, y) for every y < n. |
| CoverImages.MaskLength | create_cover_images.py:16-21 | The list passed to `putdata` has exactly width*height entries. |
| CoverImages.MaskAt | create_cover_images.py:16-21 | Row-major layout: pixel (x, y) is at index y*width + x, and its byte is 255*(x+y) div (width+height), the truncation of the float quotient. |
| CoverImages.MaskValueBelowFull | create_cover_images.py:20 | The byte of any pixel inside the canvas is at most 254, because x+y is below the divisor width+height. |
| CoverImages.RowsBelowFull | create_cover_images.py:17-20 | Every byte appended during the first n rows is at most 254. |
| CoverImages.MaskBelowFull | create_cover_images.py:17-20 | Every entry of the mask lies in [0, 254], so no pixel receives the end colour in full. |
| CoverImages.MaskTopLeftZero | create_cover_images.py:12-20 | On a non-empty canvas the first entry is 0, so the top-left pixel keeps `color_start`. |
| CoverImages.MaskBottomRight | create_cover_images.py:17-20 | The last entry belongs to pixel (width-1, height-1) and equals 255*(width+height-2) div (width+height), which is below 255. |
| CoverImages.MaskFourByTwo | create_cover_images.py:15-21 | On a 4x2 canvas the mask is [0, 42, 85, 127, 42, 85, 127, 170], so the far corner gets 170 and not 255. |
| CoverImages.MaskAntiDiagonal | create_cover_images.py:20 | Two pixels with the same x+y get the same byte. |
| CoverImages.MaskMonotone | create_cover_images.py:20 | If x1+y1 <= x2+y2, the byte of (x1, y1) is at most the byte of (x2, y2). |
| CoverImages.LStripHash | create_cover_images.py:28 | `hex_color.lstrip('#')`. Its behaviour is stated by `LStripHashStrips`, `LStripHashPrefix` and `LStripHashAppend`. |
| CoverImages.LStripHashStrips | create_cover_images.py:28 | `lstrip('#')` returns a suffix of its input, everything it removed is '#', and the result does not start with '#'. |
| CoverImages.Slice | create_cover_images.py:29 | Python's clamping slice `t[i:j]`: empty when i is past the end, otherwise the characters from i up to the smaller of j and the length, each equal to `t[i + k]`. |
| CoverImages.Channel | create_cover_images.py:29 | The slice `hex_color[i:i+2]` for i in (0, 2, 4). `ParseChannelsAccepts` and `ChannelsOfLong` state which characters it holds. |
| CoverImages.HexValue | create_cover_images.py:29 | The base-16 value of k hex digits is below 16^k. |
| CoverImages.IntBase16 | create_cover_images.py:29 | `int(literal, 16)` succeeds exactly on non-empty hex-digit strings, otherwise raises ValueError naming the literal, and yields a byte for literals of at most two digits. |
| CoverImages.HexToRgb | create_cover_images.py:26-29 | Every successful parse yields three channels in [0, 255]. |
| CoverImages.ParseChannels | create_cover_images.py:29 | Parsing the three slices of the stripped string yields channels in [0, 255] whenever it succeeds. |
| CoverImages.HexLiteralSlice | create_cover_images.py:29 | A slice is accepted by `int(_, 16)` exactly when every character in it is a hex digit. |
| CoverImages.ParseChannelsAccepts | create_cover_images.py:29 | The three slices parse exactly when the stripped string has at least five characters and its first six (or all five) are hex digits, since the clamped last slice may hold one digit. |
| CoverImages.HexToRgbAccepts | create_cover_images.py:28-29 | `hex_to_rgb` succeeds exactly when its input, stripped of leading '#', satisfies that condition. |
| CoverImages.LStripHashPrefix | create_cover_images.py:28 | Stripping `#`*n + s gives the same result as stripping s. |
| CoverImages.LeadingHashesIgnored | create_cover_images.py:28 | `"667eea"`, `"#667eea"` and `"##667eea"` parse alike: any number of leading '#' gives the same result, error or colour. |
| CoverImages.LStripHashAppend | create_cover_images.py:28 | When stripping leaves something, appending text afterwards commutes with the strip. |
| CoverImages.ParseChannelsIgnoresTail | create_cover_images.py:29 | With six or more characters, whatever follows them does not change the parse. |
| CoverImages.TrailingCharactersIgnored | create_cover_images.py:28-29 | Characters after the sixth hex digit never change the result. |
| CoverImages.HexDigitChar | create_cover_images.py:29 | The serialiser's digit for d < 16 is a lower-case hex digit that `int(_, 16)` reads back as d. |
| CoverImages.HexByte | create_cover_images.py:29 | Two lower-case hex digits whose base-16 value is the given byte. |
| CoverImages.RgbToHex | create_cover_images.py:26-29 | The serialiser writes `#` followed by six characters. |
| CoverImages.RgbHexRoundTrip | create_cover_images.py:26-29 | For every triple in [0, 255]^3, formatting it as `#rrggbb` and calling `hex_to_rgb` gives the triple back. |
| CoverImages.HexByteOfValue | create_cover_images.py:29 | Two lower-case hex digits are the serialisation of the byte they spell. |
| CoverImages.HexRgbRoundTrip | create_cover_images.py:26-29 | Every canonical lower-case `#rrggbb` string parses, and serialising the result gives the same string. |
| CoverImages.HexPairLiteral | create_cover_images.py:29 | Two hex digits form a literal whose value is 16*high + low. |
| CoverImages.HexColourOfDigits | create_cover_images.py:26-29 | `#` followed by six hex digits parses to the values of its three digit pairs. |
| CoverImages.PurpleIndigoColours | create_cover_images.py:114 | The slide-1 colours `#667eea` and `#764ba2` parse to (102, 126, 234) and (118, 75, 162). |
| CoverImages.PinkRoseColours | create_cover_images.py:122 | The slide-2 colours `#f093fb` and `#f5576c` parse to (240, 147, 251) and (245, 87, 108). |
| CoverImages.CyanBlueColours | create_cover_images.py:130 | The slide-3 colours `#4facfe` and `#00f2fe` parse to (79, 172, 254) and (0, 242, 254). |
| ProcessVideos.Split | process_videos.py:58 | `str.split(':')` returns at least one field, and no field contains the separator. |
| ProcessVideos.JoinSplit | process_videos.py:58 | Joining the fields of a split with the separator restores the original string. |
| ProcessVideos.SplitNoSeparator | process_videos.py:58 | A string without the separator splits into itself alone. |
| ProcessVideos.SplitAfterField | process_videos.py:58 | Splitting `a + sep + b`, where a has no separator, yields a followed by the fields of b. |
| ProcessVideos.SplitJoin | process_videos.py:58 | Splitting the join of separator-free fields gives the fields back. |
| ProcessVideos.IntBase10 | process_videos.py:59 | `int(field)` succeeds exactly on non-empty ASCII digit strings, of any length, and otherwise raises ValueError naming the field. |
| ProcessVideos.IntField | process_videos.py:59 | `int(parts[k])` succeeds exactly when field k exists and is a digit string, and raises IndexError exactly when the split made k fields or fewer. |
| ProcessVideos.TimeToSeconds | process_videos.py:56-59 | `time_to_seconds` itself: split on `:`, then the three `int(parts[k])` calls in order. Its behaviour is stated by `TimeToSecondsOutcome` (when it succeeds, raises IndexError or raises ValueError), `TimeOfFields` (the value H*3600 + M*60 + S), `ExtraFieldsIgnored` (fields after the third) and `TimeFormat.FormatTimeRoundTrip` (the round trip with `HH:MM:SS`). |
| ProcessVideos.TimeToSecondsOutcome | process_videos.py:58-59 | The conversion succeeds exactly when there are three or more fields and the first three are digit strings. It raises IndexError exactly when there are fewer than three fields, all of them numeric; otherwise a ValueError is raised first. |
| ProcessVideos.SecondsOfFields | process_videos.py:59 | `int(parts[0]) * 3600 + int(parts[1]) * 60 + int(parts[2])`, the first failing `int` deciding the exception. `SecondsOfThree` gives its value and `SecondsOfFieldsPrefix` shows it reads only the first three fields. |
| ProcessVideos.SecondsOfFieldsPrefix | process_videos.py:59 | Only the first three fields are read: two field lists that agree on them convert alike. |
| ProcessVideos.TimeOfFields | process_videos.py:58-59 | `"H:M:S"` with digit fields converts to H*3600 + M*60 + S. |
| ProcessVideos.SplitThree | process_videos.py:58 | `"a:b:c"` with colon-free parts splits into exactly [a, b, c]. |
| ProcessVideos.SecondsOfThree | process_videos.py:59 | Three digit fields give H*3600 + M*60 + S. |
| ProcessVideos.JoinThree | process_videos.py:58 | Joining [a, b, c] gives a + sep + b + sep + c. |
| ProcessVideos.SplitThreeFields | process_videos.py:58 | `"a:b:c:rest"` with colon-free a, b and c splits into a, b, c followed by the fields of rest. |
| ProcessVideos.ExtraFieldsIgnored | process_videos.py:59 | Fields after the third are ignored: `"1:2:3:99"` converts like `"1:2:3"`, and an error stays the same error. |
| ProcessVideos.SecondsDecompose | process_videos.py:59 | With M and S in [0, 59], the total s = H*3600 + M*60 + S gives back H = s div 3600, M = (s mod 3600) div 60 and S = s mod 60. |
| TimeFormat.DigitChar | process_videos.py:59 | The formatter's digit for d < 10 is a decimal digit that `int` reads back as d. |
| TimeFormat.TwoDigits | process_videos.py:59 | `"%02d" % n` for n < 100 is two decimal digits whose value is n. |
| TimeFormat.TwoDigitsOfValue | process_videos.py:59 | Any two-digit decimal string is the `%02d` rendering of its own value. |
| TimeFormat.FormatFieldsOfDigits | process_videos.py:58-59 | Three two-digit fields are rendered back from their values as `h:m:s`. |
| TimeFormat.FormatTimeFields | process_videos.py:59 | A number of seconds below 100 hours splits into hours < 100, minutes < 60 and seconds < 60 that sum back to it, and the formatter prints exactly those fields. |
| TimeFormat.FormatTimeOfFields | process_videos.py:59 | Hours < 100 with minutes and seconds below 60 denote a total that the formatter prints as those same fields. |
| TimeFormat.FormatTimeOfDigits | process_videos.py:58-59 | The seconds that a canonical `HH:MM:SS` string spells are formatted back to that string. |
| TimeFormat.ParseCanonical | process_videos.py:56-59 | A canonical `HH:MM:SS` string converts to a total that formats back to the string. |
| TimeFormat.FormatTimeRoundTrip | process_videos.py:56-59 | For every total below 100 hours, `time_to_seconds` applied to its `HH:MM:SS` rendering returns the total. |
| TimeFormat.TimeFormatRoundTrip | process_videos.py:56-59 | Whatever a canonical `HH:MM:SS` string converts to is below 100 hours and formats back to the same string. |
| VideoClips.Clips | process_videos.py:29-51 | The three `CLIPS` entries with their names, start and end times, cover slides and titles. `ClipRangesNonEmpty` proves that every entry converts to a non-empty range. |
| VideoClips.ClipRange | process_videos.py:77-79 | `process_clip` gets a (start, end) pair exactly when both times convert, and the pair holds their values. If the start is malformed its error is raised; otherwise the end's error is. |
| ProcessVideos.TwoDigitValue | process_videos.py:59 | Two digits form a decimal literal whose value is 10*high + low. |
| VideoClips.ClockTime | process_videos.py:56-59 | A time written `HH:MM:SS` from six digits converts to the seconds those digits spell. |
| VideoClips.ClipRangeOfClocks | process_videos.py:77-79 | A clip whose start and end are written `HH:MM:SS` gets the range those two times spell. |
| VideoClips.FirstClipRange | process_videos.py:30-36 | `clip1_computational_modeling` (03:40:32 to 03:42:47) asks for seconds 13232 to 13367. |
| VideoClips.SecondClipRange | process_videos.py:37-43 | `clip2_student_ambassadors` (03:42:58 to 03:44:45) asks for seconds 13378 to 13485. |
| VideoClips.ThirdClipRange | process_videos.py:44-50 | `clip3_teacher_army` (03:48:36 to 03:50:40) asks for seconds 13716 to 13840. |
| VideoClips.ClipRangesNonEmpty | process_videos.py:29-51 | Every entry of `CLIPS` converts without error, and its start lies strictly before its end, so every sub-clip requested is non-empty. |

## Left out

- Pillow calls are not modelled: `Image.new`, `putdata`, the masked `paste` blend and its rounding, font loading and measurement, text and rounded-rectangle drawing, and `save`. They are foreign library code. The mask is modelled up to the list handed to `putdata`.
- The title and badge layout arithmetic in `create_cover_slide` is not modelled, because it depends on widths measured by the font library.
- All moviepy work is not modelled: loading, `subclipped`, image clips, concatenation, encoding and `close`. `VideoClips.ClipRange` stops at the pair of seconds passed to `subclipped`.
- File-system and console effects are not modelled: the `mkdir` at import, `exists` checks, `print`, and the placeholder `create_cover_slide_image`, which only prints.
- Both `main` functions are not modelled, including the per-clip `try`/`except` that carries on after a failed clip. They only sequence I/O. The cover-slide colours they pass are checked through `CoverImages.CoverGradients`.
- CoverImages.CreateGradientMask: the sizes are naturals. A negative size, which `Image.new` rejects before the loop runs, is not represented.
- CoverImages.CreateGradientMask: `mask_data` is a Python list grown by `append`, so it is modelled as a `seq` grown by concatenation rather than as a fixed-size array.
- Floating point is not modelled. `int(255 * (x + y) / (width + height))` divides small non-negative integers, so the truncated float quotient is exactly the integer floor quotient used here.
- ProcessVideos.IntBase10: Python's `int()` also accepts surrounding whitespace, a sign, `_` separators and non-ASCII digits. The model accepts only plain ASCII digit strings and treats everything else as ValueError.
- ProcessVideos.IntBase10: digit strings of any length are accepted. CPython 3.11 and later, and the security releases 3.10.7, 3.9.14 and 3.8.14, raise ValueError for a base-10 string of more than 4300 digits (`sys.get_int_max_str_digits()`). That limit depends on the Python version and its settings, and the model does not impose it. Base 16 is exempt from the limit.
- CoverImages.IntBase16: the same holds for `int(_, 16)`, including its optional `0x` prefix. Only plain hex-digit strings are accepted.
- CoverImages.HexToRgb: the 3-, 4- and 8-digit CSS hex forms are not supported by the script, and the model does not add them.
- TimeFormat.FormatTime: the formatter, `CoverImages.RgbToHex` and `TimeFormat.TwoDigits` are not in the scripts. They exist as round-trip partners. `FormatTime` prints two-digit hours, so it covers totals below 100 hours (`MaxFormatted`).
