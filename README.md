# flow-code-python: the `.flo` codec and the flow colour coding, in Dafny

This project models the core of flow-code-python, a Python port of the Middlebury
optical-flow tools:

- **The `.flo` codec.** `writeFlowFile.write` validates a flow field of shape
  (H, W, 2). It then emits:
  - the tag `"PIEH"`;
  - width and height as int32;
  - the payload, row by row as interleaved u, v float32 pairs.

  `readFlowFile.read` checks the path and the tag, reads width, height and `2*w*h`
  values through one advancing file cursor, and reshapes them with `np.resize`.
- **The colour wheel.** `makeColorwheel` builds a 55 x 3 palette from six hue arcs,
  using integer floor ramps.
- **Flow colouring.** `computeColor` and `computeImg` colour each flow vector:
  - its angle selects and interpolates two palette rows;
  - its length saturates the colour inside the unit circle and dims it outside;
  - the output channels are in BGR order.

  `computeImg` first zeroes unknown flow in place and divides the field by its
  largest vector length.

Files and modules:

| file | module | what it holds |
|---|---|---|
| words.dfy | `Words` | bytes, 32-bit words, little-endian order, int32 wrap-around |
| products.dfy | `Products` | products of naturals as repeated addition, row-major offsets |
| float32.dfy | `Float32` | the value of a float32 bit pattern; the tag 202021.25 is exactly "PIEH" |
| paths.dfy | `Paths` | `PurePath.suffix` of a path string |
| flo_format.dfy | `FloFormat` | the (H, W, bands) array, the exceptions, `Encode` and `Decode` as functions on bytes |
| flo_laws.dfy | `FloLaws` | outcome, layout and round-trip lemmas about `Encode` and `Decode` |
| read_flow.dfy | `ReadFlowFile` | `read` as a method that advances a byte cursor, proved equal to `Decode` |
| write_flow.dfy | `WriteFlowFile` | `write` as a method filling the (H, 2W) buffer in place, proved equal to `Encode` |
| colorwheel.dfy | `Colorwheel` | `makeColorwheel` as a method filling a zeroed array, plus the palette laws |
| compute_color.dfy | `ComputeColor` | the one-pixel colour function and `computeColor` over 2-D arrays |
| compute_img.dfy | `ComputeImg` | `computeImg`: unknown-flow fix-up, maximum radius, normalisation |

Representation choices:

- **Payload values.** They are opaque 32-bit words (`Word`). Encoding and decoding
  are then exact. `Float32.Value` interprets a word as an IEEE float32, and the reader
  uses it for its `floNumber != TAG_FLOAT` test.
- **Flow values in the colouring code.** They are `Num = NaN | Val(x: real)`. The
  functions `np.sqrt` and `np.arctan2(y, x) / np.pi` are parameters:
  - `sqrt` is any function with `sqrt(x) >= 0` and `sqrt(x) * sqrt(x) == x` for
    `x >= 0`;
  - `angle` is any function whose values lie in [-1, 1].
- **Products.** Products of two variables are written as `Mul` (naturals, in
  products.dfy) and `Times` (reals, in compute_color.dfy). The solver then sees
  named terms, and each law about them is proved once as a lemma.
- **The file system.** It is an `Entry` parameter: `Missing`, `NotRegular` or
  `Regular(bytes)`.

Behaviour taken from the code where the code is not what one might expect:

- Palette row 14 is (255, 238, 0), because floor(255 * 14 / 15) = 238.
- The reader does not check that the payload is complete or that the dimensions
  agree with the file size. `np.fromfile` returns the words that are there, and
  `np.resize` repeats them cyclically, or gives zeros when there are none. The only
  dimension error is a negative width or height, which `np.resize` rejects.
- The element count `2 * w[0] * h[0]` is computed in int32 arithmetic and wraps.
  This follows NumPy 2 (NEP 50), where a Python `int` times an `np.int32` scalar
  stays an `np.int32`. It also holds on any platform whose C `long` is 32 bits.
- The unknown-flow test is one-sided: it tests `u > 1e9`, not `|u| > 1e9`.
- A NaN component makes the radius NaN, so `np.amax(rad)` is NaN. Python's
  `max([-1, nan])` keeps -1, because `nan > -1` is false. The field is then divided
  by `eps - 1`, which reverses every vector and lengthens it slightly
  (`ComputeImg.NaNReversesFlow`). The NaN pixels themselves are drawn white.

## Model

| member | source | states |
|---|---|---|
| Words.WordBytesRoundTrip | writeFlowFile.py:36-37 | the four little-endian bytes written for a word read back as that word |
| Words.Int32RoundTrip | readFlowFile.py:32-33 | an int32 written as its two's-complement word reads back as the same integer |
| Words.Int32Bits | writeFlowFile.py:36-37 | `astype(np.int32)` gives a word congruent to the value modulo 2^32, equal to it when it is a non-negative word, and with the sign bit set exactly for the negative int32 values |
| Words.AsInt32 | readFlowFile.py:32-33 | a word read as int32 lies in [-2^31, 2^31) and has that word as its bit pattern |
| Words.WrapInt32 | readFlowFile.py:35 | int32 arithmetic: the result is in range, congruent to the exact value modulo 2^32, and equal to it when it fits |
| Words.WordsBytesAt | writeFlowFile.py:41 | word i of a written word sequence sits at byte 4i |
| Words.WordsBytesAppend | writeFlowFile.py:35-41 | writing two word sequences in turn writes their concatenation |
| Float32.Value | readFlowFile.py:29 | an exponent field of 255 is exactly the non-finite case, and the sign bit gives the sign of a finite value |
| Float32.TagWordValue | readFlowFile.py:17 | the "PIEH" word read as float32 is 202021.25 |
| Float32.TagFloatExact | readFlowFile.py:29-31 | a word passes the `floNumber != TAG_FLOAT` test exactly when it is the "PIEH" word |
| FloFormat.TagBytesAreTagFloat | writeFlowFile.py:17 | the tag bytes the writer emits form the word whose float32 value is TAG_FLOAT |
| FloFormat.FromFile | readFlowFile.py:29-35 | `np.fromfile` returns the requested number of whole words, or fewer when the file ends, and all of them for a negative count; word i comes from byte pos + 4i |
| FloFormat.Resize | readFlowFile.py:36 | `np.resize` returns exactly the requested number of items |
| Paths.Suffix | readFlowFile.py:25 | `path.suffix` is empty or a dot followed by at least one character and no further dot; it is a proper tail of the last path component |
| Paths.FloSuffixIff | readFlowFile.py:25 | a path has suffix ".flo" exactly when its last component ends in ".flo" with a character before the dot |
| FloFormat.Encode | writeFlowFile.py:20-41 | success needs a `.flo` path and two bands and gives a file of 12 + 4n bytes for n data words; any failure is the suffix or the band error. The full contract is in EncodeOutcome, HeaderAt, PayloadLayout and RoundTrip |
| FloFormat.Decode | readFlowFile.py:20-38 | success needs a regular file with a `.flo` path, and the result is a well-formed two-band array. The full contract is in DecodeOutcome, DecodeContents and RoundTrip |
| FloLaws.EncodeOutcome | writeFlowFile.py:20-41 | write fails exactly on a wrong suffix (checked first) or a band count other than 2; the shape mismatch is unreachable; on success the file is tag, width, height and the data |
| FloLaws.HeaderAt | writeFlowFile.py:35-41 | the file is 12 + 4n bytes for n payload words and starts with "PIEH", then width as int32, then height |
| FloLaws.PayloadAt | writeFlowFile.py:41 | payload word i is at byte 12 + 4i |
| FloLaws.RowMajorIndex | writeFlowFile.py:38-40 | the buffer position 2(rW + c) + k is the row-major offset (rW + c) * 2 + k of element [r, c, k] |
| FloLaws.PairSize | writeFlowFile.py:38 | a two-band field holds 2 * H * W words |
| FloLaws.PayloadElement | writeFlowFile.py:38-41 | element [r, c, k] of the field is the payload word at byte 12 + 4((rW + c) * 2 + k) |
| FloLaws.PayloadLayout | writeFlowFile.py:36-41 | the file is 12 + 8WH bytes, and in payload row r word 2c holds u[r][c] and word 2c+1 holds v[r][c] |
| FloLaws.DecodeOutcome | readFlowFile.py:20-36 | read succeeds exactly on a regular `.flo` file of at least 12 bytes that starts with the "PIEH" word and has non-negative width and height; the errors come in the order existence, file, suffix, tag; a file too short for the tag, or a tagged file shorter than 12 bytes, raises the missing-value IndexError, and a negative width or height raises the `np.resize` error |
| FloLaws.DecodeContents | readFlowFile.py:35-36 | element [r, c, k] of the result is payload word (rw + c) * 2 + k modulo the number of words read, or 0 when none were read |
| FloLaws.ResizeExact | readFlowFile.py:36 | resizing data to its own length leaves it unchanged |
| FloLaws.DecodeWholePayload | readFlowFile.py:35-36 | when the file holds the whole payload and 2wh fits in an int32, the result's data are exactly the 2wh words from byte 12 |
| FloLaws.RoundTrip | readFlowFile.py:20-38 | reading back what write produced gives the original field, for any `.flo` path and any two-band field whose sizes fit in an int32 |
| ReadFlowFile.ReadItems | readFlowFile.py:29-35 | the item loop returns exactly `np.fromfile`'s words and leaves the cursor after them |
| ReadFlowFile.Read | readFlowFile.py:20-38 | the cursor-driven reader returns exactly `Decode` on every input, error cases included |
| WriteFlowFile.FillBand | writeFlowFile.py:39-40 | column 2c + k of every buffer row receives band k of column c, and the other columns keep their values |
| WriteFlowFile.Flatten | writeFlowFile.py:41 | `tofile` writes the buffer's cells in row-major order |
| WriteFlowFile.PayloadIsData | writeFlowFile.py:38-41 | the filled and flattened buffer is the field's own row-major data |
| WriteFlowFile.Write | writeFlowFile.py:20-41 | the writer returns exactly `Encode` on every input, error cases included |
| Colorwheel.Entry | computeColor.py:41-69 | every palette row has one channel at 255 and one channel at 0 |
| Colorwheel.Wheel | computeColor.py:38 | the palette has RY + YG + GC + CB + BM + MR = 55 rows |
| Colorwheel.AssignSlice | computeColor.py:43-69 | a slice assignment overwrites one column over a row range and leaves every other cell unchanged |
| Colorwheel.FillArc | computeColor.py:41-69 | filling the two columns of one arc, on top of a zeroed third column, extends the built prefix by that arc |
| Colorwheel.MakeColorwheel | computeColor.py:24-71 | returns a fresh 55 x 3 array whose row k is palette entry k |
| Colorwheel.Arc | computeColor.py:41-69 | every row lies in exactly one of the six arcs RY, YG, GC, CB, BM, MR that the `col` counter lays out, and that arc starts at or before the row and ends within the palette |
| Colorwheel.RampProperties | computeColor.py:44-68 | each floor ramp starts at 0, is non-decreasing, and stays below 255 |
| Colorwheel.RampStep | computeColor.py:44-68 | consecutive ramp values differ by at most 64 |
| Colorwheel.WheelRange | computeColor.py:39-69 | every entry is in [0, 255], every row has a channel at 255 and a channel still 0 |
| Colorwheel.WheelStart | computeColor.py:43-44 | rows 0, 1, 14 and 15 are (255,0,0), (255,17,0), (255,238,0) and (255,255,0) |
| Colorwheel.WheelMonotone | computeColor.py:44-68 | the ramping channel rises in RY, GC and BM and falls in YG, CB and MR |
| Colorwheel.WheelSmooth | computeColor.py:41-69 | neighbouring rows, including row 54 and row 0, differ by at most 64 in every channel |
| Colorwheel.ArcBoundary | computeColor.py:41-69 | the rows at the end of each arc and their successors, with their step of at most 64 |
| ComputeColor.FracIndex | computeColor.py:100 | for an angle in [-1, 1], fk lies in [0, 54] |
| ComputeColor.K0 | computeColor.py:101 | the truncated index is a palette row with k0 <= fk < k0 + 1 |
| ComputeColor.K1 | computeColor.py:102-103 | the next row is k0 + 1, wrapping to 0 after row 54 |
| ComputeColor.Interp | computeColor.py:112 | the interpolated colour lies between the two palette colours |
| ComputeColor.InterpBetween | computeColor.py:112 | (1 - f) c0 + f c1 lies between c0 and c1 for f in [0, 1] |
| ComputeColor.Saturate | computeColor.py:113-115 | the result is in [0, 1]; inside the unit circle it is at least the colour, outside it is at most 0.75 |
| ComputeColor.SaturateMonotone | computeColor.py:114 | inside the unit circle, a longer vector gives a paler colour, never a brighter one |
| ComputeColor.ToByte | computeColor.py:116 | floor(255 col) is in [0, 255] and is the floor of 255 col |
| ComputeColor.Blend | computeColor.py:109-112 | the palette blend at any angle is in [0, 1] |
| ComputeColor.PixelChannel | computeColor.py:108-116 | every output channel is in [0, 255] |
| ComputeColor.Radius | computeColor.py:98 | the radius is non-negative and its square is u^2 + v^2 |
| ComputeColor.ColorAt | computeColor.py:98-116 | a pixel channel is in [0, 255] |
| ComputeColor.PixelCentre | computeColor.py:114 | radius 0 gives 255 in every channel |
| ComputeColor.ZeroFlowIsWhite | computeColor.py:98-116 | the zero vector is drawn white |
| ComputeColor.PixelOnPalette | computeColor.py:99-116 | on the unit circle, at the angle of palette row k, the pixel is palette row k |
| ComputeColor.PixelInside | computeColor.py:113-114 | inside the unit circle a channel is at least the floor of its palette blend |
| ComputeColor.PixelDimmed | computeColor.py:113-116 | outside the unit circle a channel is floor(255 * 0.75 * c) for the colour c the same angle has at radius 1, hence at most 191 |
| ComputeColor.DimFactor | computeColor.py:113-115 | for any radius above 1 the saturated colour is exactly 0.75 times the colour at radius 1 |
| ComputeColor.Cleaned | computeColor.py:87-95 | a component becomes 0 when either component of its pixel is NaN, and keeps its value otherwise |
| ComputeColor.ZeroNaNs | computeColor.py:87-95 | the in-place pass leaves every pixel of u and v cleaned |
| ComputeColor.ComputeColor | computeColor.py:75-118 | u and v are cleaned in place, and a fresh (H, W, 3) image has in channel 2 - c palette channel c of every pixel's colour |
| ComputeColor.PaintChannel | computeColor.py:108-116 | one iteration writes image channel 2 - c of every pixel and leaves the other channels unchanged |
| ComputeColor.PaintRow | computeColor.py:116 | writes channel 2 - c of one row and leaves every other cell unchanged |
| ComputeColor.RowColors | computeColor.py:109-116 | the colours of one row, pixel by pixel |
| ComputeColor.WriteRow | computeColor.py:116 | a row slice assignment writes that row of one channel and nothing else |
| ComputeColor.PixelColor | computeColor.py:99-116 | reading the palette array gives the pixel colour of the palette function |
| ComputeImg.Unknown | computeColor.py:147-148 | the test is one-sided: an unknown component is a positive number, NaN never is unknown, and no value at most 0 is, however large its magnitude |
| ComputeImg.Fixed | computeColor.py:147-152 | after the fix-up no component is unknown; both are zeroed when either was unknown, and kept otherwise |
| ComputeImg.FixedIdempotent | computeColor.py:147-152 | a second fix-up changes nothing |
| ComputeImg.FixUnknownFlow | computeColor.py:136-152 | the caller's field is fixed up in place in bands 0 and 1, and every other band is unchanged |
| ComputeImg.RadiusOf | computeColor.py:159 | the radius is NaN exactly when a component is NaN, and non-negative otherwise |
| ComputeImg.NanMax | computeColor.py:160 | `np.amax` is NaN if either value is, and otherwise one of the two values, at least both |
| ComputeImg.PyMax | computeColor.py:160 | Python's `max` keeps the first item unless the second is a number greater than it |
| ComputeImg.MaxRadius | computeColor.py:160 | `np.amax(rad)` is NaN exactly when some radius is NaN, and otherwise an upper bound that some pixel attains |
| ComputeImg.MaxRadiusValue | computeColor.py:145-160 | maxrad is -1 exactly when some radius is NaN, and otherwise the largest radius of the field |
| ComputeImg.Divide | computeColor.py:167-168 | division keeps NaN, and a quotient times the divisor gives back the value |
| ComputeImg.Divided | computeColor.py:167-168 | a fresh array holding one band of the field divided by d |
| ComputeImg.PixelOf | computeColor.py:167-169 | every pixel channel of the final image is in [0, 255] |
| ComputeImg.Render | computeColor.py:167-169 | pixel [i, j, k] of the image is palette channel 2 - k of the divided, cleaned flow at [i, j] |
| ComputeImg.ComputeImg | computeColor.py:122-171 | IndexError for fewer than two bands, ValueError for an empty field; otherwise the flow is fixed up in place, maxRadius is -1 exactly when some radius is NaN and otherwise the largest radius, and every pixel is coloured from the flow divided by maxrad + eps |
| ComputeImg.NormalisedInside | computeColor.py:159-168 | once divided by the maximum radius plus eps, every vector lies strictly inside the unit circle |
| ComputeImg.NormalisedPixelNotDimmed | computeColor.py:113-169 | in a field without NaN no pixel is dimmed: each channel is at least the floor of its palette blend |
| ComputeImg.NaNPixelIsWhite | computeColor.py:87-169 | a pixel with a NaN component is drawn white |
| ComputeImg.UnknownPixelIsWhite | computeColor.py:147-169 | a pixel that was unknown before the fix-up is drawn white |
| ComputeImg.NaNReversesFlow | computeColor.py:160-168 | with maxrad = -1, dividing by maxrad + eps reverses a vector and makes it longer |

## Left out

- Filesystem effects. `path.exists()`, `path.is_file()`, `open`, `tofile` and
  `fromfile` act on a byte sequence. The reader takes the directory entry and its
  bytes as a parameter, and the writer returns the bytes it would write.
- Path normalisation. Only the last component's suffix is modelled, as `PurePath`
  computes it after dropping trailing slashes; `.` components and repeated
  separators are not normalised.
- Floating-point arithmetic. The colouring code computes on reals, not on float64:
  - there is no rounding;
  - infinities are not represented;
  - NaN is the explicit `NaN` case of `Num`;
  - `sys.float_info.epsilon` is the exact real 2^-52.
- `np.sqrt` and `np.arctan2 / np.pi` are parameters, constrained only by the facts
  the model uses:
  - `sqrt` is the non-negative square root;
  - `angle` returns values in [-1, 1].
- The writer's float64 buffer. `tmp` is float64, so every value is widened to float64
  and narrowed back to float32 by `astype(np.float32)`. In the model, flow values reach
  `write` already as float32 bit patterns and are copied unchanged. For ordinary
  float32 values the widening and narrowing is exact. A signalling-NaN pattern,
  however, comes back quieted, so the bit-exact `FloLaws.RoundTrip` over opaque words
  does not describe the source for those words.
- Memory and size limits. A header with huge dimensions, such as w = h = 2^31 - 1,
  makes `np.resize` raise ValueError ("array is too big") or MemoryError in the
  source. `FloFormat.Decode` returns Success there, because the model's arrays are
  unbounded sequences.
- Input that is not three-dimensional is not modelled: `flow.shape` unpacking errors
  in `write`, and `flow[:, :, 0]` on a 2-D array in `computeImg`.
- The uint8 casts of the channel values in `computeColor` (computeColor.py:116 and
  :118). They are modelled as the identity, which they are, because every value is
  proved to lie in [0, 255] first. The other uint8 cast, `k0 = fk.astype(np.uint8)`
  at computeColor.py:101, truncates a real fk in [0, 54]. The model does not treat
  it as the identity: it is the floor in `ComputeColor.K0`.
- The `print` calls in `computeImg` (maximum flow and the u and v ranges), and the
  `maxu`, `minu`, `maxv` and `minv` values that only feed those prints.
- The `__main__` block of computeColor.py and the colorTest.py script: argument
  parsing and OpenCV display and PNG output.
- FloLaws.RoundTrip: requires width, height and 2 * W * H to fit in an int32. Beyond
  that the header wraps and the reader requests a wrapped element count. Without
  the int32 wrap of the element count (next line), the bound on 2 * W * H would not
  be needed; the bound on W and H would still be.
- FloFormat.Decode: the element count follows NumPy 2 semantics. Under NumPy 1.x on
  a 64-bit Linux or macOS build, value-based casting promotes `2 * w[0] * h[0]` to
  int64, so the exact 2wh is requested and never wraps. That behaviour is not
  modelled.
- ComputeColor.PixelChannel, ComputeColor.ColorAt, ComputeImg.PixelOf: their own
  ensures state only the [0, 255] range. The colour they compute is specified by the
  lemmas PixelCentre, ZeroFlowIsWhite, PixelOnPalette, PixelInside and PixelDimmed.
