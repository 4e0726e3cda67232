# book.h colour kernel — a Dafny model

This project models the algorithmic core of the shared CUDA support header
`common/inc/book.h`:

- the generic `swap`;
- the device function `value(n1, n2, hue)`, which evaluates one HSL colour
  channel with a single-step hue correction;
- the two `float_to_color` kernels. They turn a grid of scalar samples in
  [0, 1] into an RGBA image, either as a flat `unsigned char` buffer (four
  bytes per pixel) or as a `uchar4` buffer (one packed pixel per slot).

The model is organised in modules that follow the header:

- `CArith` (`carith.dfy`) holds the C semantics the kernel depends on:
  - the 8-bit `unsigned char` type;
  - float-to-integer conversion, which truncates toward zero;
  - the `(unsigned char)` cast, defined only when the value is representable;
  - the integer remainder `%`, whose sign follows the dividend.
- `Swap` (`swap.dfy`) is `swap(T&, T&)` over a store with two locations,
  which may alias.
- `HueChannel` (`hue.dfy`) is `value`. It has three parts:
  - `WrapHue`, the single correction;
  - `Level`, the four branches in exact arithmetic;
  - `Value`, the cast.
  `ReferenceLevel` is an independent textbook definition: it reduces the hue
  fully modulo 360 and applies a trapezoid weight. The evaluator is proved
  equal to it on the hues the kernel produces.
- `ColorMap` (`colormap.dfy`) is the body of one kernel thread. It covers
  the interpolation constants `m1`/`m2`, the hue
  `h = (180 + (int)(360 * l)) % 360`, and the resulting flat and packed
  pixels.
- `Grid` (`grid.dfy`) is the index arithmetic:
  - a thread's pixel, `threadIdx + blockIdx * blockDim`;
  - the offset, `x + y * blockDim.x * gridDim.x`;
  - the flat byte index, `offset * 4 + k`.
  All three are the same mixed-radix pattern `Linear(lo, hi, radix)`, which
  is a bijection onto its range.
- `FloatToColor` (`floattocolor.dfy`) models a whole launch of each kernel.
  - The CUDA threads run one after another in the order of a *schedule*: any
    enumeration of the grid's pixels that lists each one exactly once.
  - Each launch returns the final buffer and the trace of the slots it
    stored to.
  - The launches are generic in the per-pixel computation (`LaunchFlat`,
    `LaunchPacked`), so the write pattern is proved once for each layout.
  - The kernels instantiate them with the colour map.

Floating-point values are modelled as exact `real`s. C conversions and
remainders are written out explicitly.

### Behaviour of the code worth knowing

- The hue correction does not normalise into [0, 360). It subtracts 360
  only when `hue > 360`, so 360 is kept and 720 becomes 360. It adds 360
  once when `hue < 0`. `HueChannel.WrapHueIsModuloExactly` states exactly
  where the correction agrees with reduction modulo 360. At 360 the
  evaluator takes the `255 * n1` branch, which is also the textbook value
  at 0 degrees, so keeping 360 does no harm.
- Converting a floating value to `unsigned char` is undefined in C when the
  truncated value is not representable. The cast is therefore defined only
  on (-1, 256), and `HueChannel.Value` requires that of its level.
- The row length used by the offset is `blockDim.x * gridDim.x`, so the
  image is exactly as large as the launch (`Grid.Width`, `Grid.Height`).
  The launch methods take `width` and `height` together with a schedule of
  that grid; `Grid.ThreadsPartitionGrid` and `Grid.ThreadOfPixel` relate
  the grid to the launch geometry.

## Model

| member | source | states |
|---|---|---|
| Swap.Swap | common/inc/book.h:27-33 | after `t = a; a = b; b = t` the first location holds the second's old value, the second holds the first's, and every other location is unchanged |
| Swap.SwapInvolution | common/inc/book.h:27-33 | swapping the same two locations twice restores the store |
| Swap.SwapAliased | common/inc/book.h:27-33 | when both references name the same location the swap changes nothing |
| Swap.SwapPermutes | common/inc/book.h:27-33 | a swap neither loses nor duplicates a value: the multiset of values is preserved |
| CArith.Trunc | common/inc/book.h:59 | float-to-int conversion rounds toward zero: floor for non-negative values, ceiling for non-positive ones |
| CArith.ToUChar | common/inc/book.h:59-64 | the `(unsigned char)` cast of a value in (-1, 256) is the whole part of a non-negative value and 0 for a negative one |
| CArith.UCharDefinedIffRepresentable | common/inc/book.h:59-64 | the cast is defined exactly when the truncated value fits in 0..255 |
| CArith.ToUCharMonotone | common/inc/book.h:59-64 | the cast never maps a larger value to a smaller channel |
| CArith.CRem | common/inc/book.h:75 | C's `%` leaves a remainder smaller in magnitude than the divisor, carrying the dividend's sign, that completes the truncating quotient |
| CArith.CRemNonNegative | common/inc/book.h:75 | for a positive divisor C's remainder equals the Euclidean one whenever the dividend is non-negative |
| HueChannel.WrapHue | common/inc/book.h:54-57 | the correction changes the hue by a multiple of 360, by at most one period; hues in [0, 360] stay put; the result lands in [0, 360] exactly for inputs in [-360, 720] |
| HueChannel.WrapHueIsModuloExactly | common/inc/book.h:54-57 | the single correction equals reduction modulo 360 if and only if the hue is in [-360, 720) and is not 360 |
| HueChannel.WrapHueOnePeriod | common/inc/book.h:54-57 | within one period of the range the correction is reduction modulo 360, except that a full turn is reported as 360 |
| HueChannel.WrapHueExamples | common/inc/book.h:54-57 | 360 stays 360, 361 becomes 1, -1 becomes 359, 721 becomes 361 and -361 becomes -1: a single step, not a modulo |
| HueChannel.LevelMatchesReference | common/inc/book.h:52-65 | for every hue in [-360, 720] the four branches after the correction compute the textbook HSL channel: the hue reduced modulo 360, a trapezoid weight rising over 0..60, full to 180, falling to 240, zero after |
| HueChannel.LevelIsWeightOfCorrectedHue | common/inc/book.h:54-64 | the branch is chosen by the corrected hue alone: for every hue from -360 on, the level interpolates between the constants by the trapezoid weight of the corrected hue, whatever the constants |
| HueChannel.RampBelowOnePeriodOvershoots | common/inc/book.h:54-59 | below one period the rising ramp is unclamped: at -361 the corrected hue is -1, the level is -4.25 and the channel cast is undefined |
| HueChannel.LevelBetween | common/inc/book.h:58-64 | for hues in [-360, 720] the value before the cast lies between `255 * n1` and `255 * n2`, whichever order they are in |
| HueChannel.Value | common/inc/book.h:52-65 | for hues in [-360, 720] the channel is the truncated textbook HSL level |
| HueChannel.ValueInRange | common/inc/book.h:52-65 | for constants in [0, 1] and hues in [-360, 720] the cast is defined and the channel lies between the channels of the two constants |
| HueChannel.SingleCorrectionIsNotModulo | common/inc/book.h:54-64 | a hue two periods out of range is not evaluated like its canonical angle: at 721 the evaluator gives channel 0 where the textbook channel at 1 degree is 4 |
| ColorMap.InterpolantsOf | common/inc/book.h:78-82 | `m1` and `m2` are centred on the lightness and are the HSL chroma `(1 - abs(2l - 1)) * s` apart; with saturation 1 and `l <= 0.5`, `m1` is exactly 0 |
| ColorMap.InterpolantsBounded | common/inc/book.h:78-82 | for lightness and saturation in [0, 1] the constants satisfy `0 <= m1 <= m2 <= 1` |
| ColorMap.SampleDegrees | common/inc/book.h:75 | for a sample in [0, 1] the truncated product `(int)(360 * l)` is in [0, 360] |
| ColorMap.HueOf | common/inc/book.h:75 | for products from -180 on, `(180 + t) % 360` in C is a canonical angle in [0, 360), equal to the Euclidean reduction |
| ColorMap.ChannelHuesInRange | common/inc/book.h:75-86 | for a product in [0, 360] the green hue is in [0, 359], the red hue `h + 120` is corrected into [1, 360] and the blue hue `h - 120` into [0, 359], all within the evaluator's single-correction range |
| ColorMap.ShadeOf | common/inc/book.h:73-82 | for a sample in [0, 1] the constants are in [0, 1], the hue is in [0, 360), and all three `value` calls have a defined cast |
| ColorMap.FlatPixel | common/inc/book.h:84-87 | a thread of the flat kernel produces four bytes, the last being the opaque alpha 255 |
| ColorMap.PackedPixel | common/inc/book.h:107-110 | a thread of the packed kernel produces a `uchar4` whose `.w` is the opaque alpha 255 |
| ColorMap.PixelLayoutsAgree | common/inc/book.h:67-111 | the two kernels compute the same channels: flat bytes 0..3 are the packed `.x .y .z .w` |
| ColorMap.PixelMatchesReference | common/inc/book.h:84-86 | red, green and blue are the truncated textbook HSL channels at hues `h + 120`, `h`, `h - 120`, each between the channels of `m1` and `m2` |
| ColorMap.PixelExamples | common/inc/book.h:73-110 | sample 0 gives hue 180 and opaque black; 0.25 gives (63, 0, 127); 0.5 gives m1 = 0, m2 = 1 and pure red; 0.75 gives (191, 255, 127); 1 gives white |
| Grid.LinearInjective | common/inc/book.h:69-71 | with low digits below the radix, `lo + hi * radix` determines both digits (an if-and-only-if) |
| Grid.LinearBounds | common/inc/book.h:69-71 | digits in range give a combined index in [0, radix * count) |
| Grid.LinearSplitBounds | common/inc/book.h:69-71 | every index in [0, radix * count) is the combination of digits in range |
| Grid.OffsetInjective | common/inc/book.h:71 | the offset of a grid pixel lies in [0, width * height), and two grid pixels share an offset if and only if they are the same pixel |
| Grid.CoordOf | common/inc/book.h:71 | every offset is the offset of a pixel |
| Grid.CoordOfInGrid | common/inc/book.h:71 | every offset in [0, width * height) belongs to a pixel of the grid |
| Grid.FlatIndexInjective | common/inc/book.h:84-87 | `offset * 4 + k` for pixels below n lies in [0, 4n), and two (pixel, channel) pairs share a byte if and only if they are equal |
| Grid.FlatIndexSplit | common/inc/book.h:84-87 | every byte below `4 * n` is channel `b % 4` of pixel `b / 4` below n |
| Grid.ThreadsPartitionGrid | common/inc/book.h:69-70 | every thread of a launch computes a pixel inside the `blockDim * gridDim` image, and two threads compute the same pixel if and only if they are the same thread |
| Grid.ThreadOfPixel | common/inc/book.h:69-70 | every pixel of the image is computed by some valid thread |
| FloatToColor.FlatImage | common/inc/book.h:67-88 | the finished flat buffer holds pixel o's four channels at `o * 4 + 0..3` and leaves every byte from `4 * n` on untouched |
| FloatToColor.PackedImage | common/inc/book.h:90-111 | the finished packed buffer holds pixel o's `uchar4` in slot o and leaves every slot from n on untouched |
| FloatToColor.ImageLayoutsAgree | common/inc/book.h:67-111 | the two kernels paint the same picture: flat byte `o * 4 + k` is channel k of packed slot o, and the alpha is 255 in both layouts |
| FloatToColor.UniformFieldUniformImage | common/inc/book.h:67-111 | a field of one repeated sample gives an image of one repeated pixel, in the packed layout and, channel by channel, in the flat one |
| FloatToColor.ScheduleOffsets | common/inc/book.h:69-71 | the scheduled pixels have in-range, pairwise distinct offsets |
| FloatToColor.ScheduleCoversOffsets | common/inc/book.h:69-71 | every offset of the grid is the offset of some scheduled pixel |
| FloatToColor.LaunchFlat | common/inc/book.h:67-88 | in any thread order, every byte below `4 * width * height` ends up holding its pixel's channel; it is stored exactly once (the trace is in range, has no repeats and covers every byte); no byte beyond is touched |
| FloatToColor.StorePixelBytes | common/inc/book.h:84-87 | one thread's four stores change exactly its pixel's four bytes |
| FloatToColor.FlatTraceGrows | common/inc/book.h:84-87 | each thread's stores extend the trace by its pixel's four byte addresses, in channel order |
| FloatToColor.StoreKeepsDonePixels | common/inc/book.h:84-87 | a thread's stores never overwrite a pixel finished by an earlier thread |
| FloatToColor.FlatTraceComplete | common/inc/book.h:84-87 | the flat trace of a full schedule lists every byte of the image exactly once, and nothing outside it |
| FloatToColor.LaunchPacked | common/inc/book.h:90-111 | in any thread order, every slot below `width * height` ends up holding its pixel, is stored exactly once, and no slot beyond is touched |
| FloatToColor.PackedTraceComplete | common/inc/book.h:107-110 | the packed trace of a full schedule lists every slot of the image exactly once |
| FloatToColor.FloatToColorFlat | common/inc/book.h:67-88 | a launch of the flat kernel leaves exactly the flat image, whatever the thread order, and stores to each of the `4 * width * height` bytes exactly once and to no other |
| FloatToColor.FlatBuffersEqual | common/inc/book.h:84-87 | flat buffers that agree on every pixel's four channels and on the bytes after the image are equal |
| FloatToColor.FloatToColorPacked | common/inc/book.h:90-111 | a launch of the packed kernel leaves exactly the packed image, whatever the thread order, and stores to each of the `width * height` slots exactly once and to no other |

## Left out

- `HandleError`, `HANDLE_ERROR` and `HANDLE_NULL` are left out. They only print a message and exit the process.
- `big_random_block` and `big_random_block_int` are left out. They allocate host memory and fill it from `rand()`.
- The Windows and POSIX thread wrappers (`start_thread`, `end_thread`, `destroy_thread`, `wait_for_threads`) are left out. They are thin OS portability shims.
- Real CUDA scheduling is not modelled. Threads run concurrently in hardware. The model runs them sequentially in an arbitrary schedule, and the result is proved independent of that schedule. This is sound because no two threads touch the same slot, which is also proved.
- Single-precision rounding is not modelled. Values are exact reals, so both the float rounding of `360.0f * l` and the arithmetic inside `value` are exact.
- 32-bit overflow of `x`, `y`, `offset` and `offset * 4` is not modelled. Indices are unbounded integers, which is faithful while `4 * width * height` fits in an `int`.
- Samples outside [0, 1] are not modelled. `ColorMap.ShadeOf`, `ColorMap.FlatPixel`, `ColorMap.PackedPixel` and the launches require samples in [0, 1], because outside it a channel's cast can be undefined in C.
- HueChannel.Value: requires its level to be in the cast's defined range (-1, 256). The code has no such guard, but the C cast is undefined outside that range.
- HueChannel.LevelMatchesReference: the identity with the textbook channel is proved in exact arithmetic. In single precision, the two orders of evaluation can differ in the last bit.
- HueChannel.Value: the agreement with the textbook channel is stated only for hues in [-360, 720]. Outside that range they differ (`HueChannel.SingleCorrectionIsNotModulo`).
