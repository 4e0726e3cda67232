/**
 The per-thread body of the `float_to_color` kernels: one scalar sample `l`
 (a lightness in [0, 1]) becomes one opaque RGBA pixel through the HSL model
 with saturation fixed at 1. The hue is derived from the sample itself, so
 the field is painted around the colour wheel starting from cyan.
 */
module ColorMap {
  import opened CArith
  import opened HueChannel

  /** A CUDA `uchar4`: red, green, blue and alpha in `.x .y .z .w`. */
  datatype UChar4 = UChar4(x: byte, y: byte, z: byte, w: byte)

  /** Channel `k` of a packed pixel, in the order the flat layout stores them. */
  function Channel(p: UChar4, k: int): byte
    requires 0 <= k < 4
  {
    if k == 0 then p.x else if k == 1 then p.y else if k == 2 then p.z else p.w
  }

  function AbsReal(x: real): real
  {
    if x < 0.0 then -x else x
  }

  /** The HSL interpolation constants: the larger one `m2` and the smaller
      one `m1 = 2 * l - m2`. */
  datatype Interpolants = Interpolants(m1: real, m2: real)

  /** `m2` takes the `l * (1 + s)` branch up to and including l = 0.5 and
      `l + s - l * s` above it. The constants straddle the lightness
      symmetrically, they are the HSL chroma `(1 - |2l - 1|) * s` apart, and
      with full saturation at or below half lightness the lower one is
      exactly 0 (an identity that also holds in single precision, since
      doubling is exact). */
  function InterpolantsOf(l: real, s: real): (p: Interpolants)
    ensures (p.m1 + p.m2) / 2.0 == l
    ensures p.m2 - p.m1 == (1.0 - AbsReal(2.0 * l - 1.0)) * s
    ensures l <= 0.5 && s == 1.0 ==> p.m1 == 0.0
  {
    var m2 := if l <= 0.5 then l * (1.0 + s) else l + s - l * s;
    Interpolants(2.0 * l - m2, m2)
  }

  /** For a lightness and a saturation in [0, 1] both constants stay in
      [0, 1], which keeps every channel level within [0, 255]. */
  lemma InterpolantsBounded(l: real, s: real)
    requires 0.0 <= l <= 1.0 && 0.0 <= s <= 1.0
    ensures var p := InterpolantsOf(l, s); 0.0 <= p.m1 <= p.m2 <= 1.0
  {
    if l <= 0.5 {
      ScaleBetween(l, s);
      assert l * (1.0 + s) == l + l * s;
    } else {
      ScaleBetween(1.0 - l, s);
      var c := (1.0 - l) * s;
      assert l + s - l * s == l + c;
      assert InterpolantsOf(l, s).m2 == l + c <= 1.0;
    }
  }

  /** The truncated product `(int)(360.0f * l)`, in exact arithmetic. */
  function SampleDegrees(l: real): (t: int)
    ensures 0.0 <= l <= 1.0 ==> 0 <= t <= 360
  {
    Trunc(360.0 * l)
  }

  /** `h = (180 + t) % 360` with C's remainder: the sample's angle turned by
      half a circle. For every t from -180 on the remainder is a canonical
      angle, the same one Euclidean reduction gives. */
  function HueOf(t: int): (h: int)
    ensures -180 <= t ==> 0 <= h < 360 && h == (t + 180) % 360
  {
    CRemNonNegative(180 + t, 360);
    CRem(180 + t, 360)
  }

  /** For a sample in [0, 1] the three hues passed to the evaluator lie within
      one period of the canonical range, so its single correction brings
      each into [0, 360]: red's `h + 120` lands in [1, 360] and blue's
      `h - 120` in [0, 359]. */
  lemma ChannelHuesInRange(t: int)
    requires 0 <= t <= 360
    ensures 0 <= HueOf(t) <= 359
    ensures 120 <= HueOf(t) + 120 <= 479 && 1 <= WrapHue(HueOf(t) + 120) <= 360
    ensures -120 <= HueOf(t) - 120 <= 239 && 0 <= WrapHue(HueOf(t) - 120) <= 359
  {
  }

  /** Everything the three evaluator calls of one pixel share. */
  datatype Shade = Shade(m1: real, m2: real, h: int)

  /** Lightness, hue and interpolation constants of a sample, for both
      kernels: saturation is 1, the hue comes from the truncated product. */
  function ShadeOf(l: real): (sh: Shade)
    requires 0.0 <= l <= 1.0
    ensures 0.0 <= sh.m1 <= sh.m2 <= 1.0
    ensures 0 <= sh.h < 360
    ensures UCharDefined(Level(sh.m1, sh.m2, sh.h + 120))
    ensures UCharDefined(Level(sh.m1, sh.m2, sh.h))
    ensures UCharDefined(Level(sh.m1, sh.m2, sh.h - 120))
  {
    var s := 1.0;
    var h := HueOf(SampleDegrees(l));
    var p := InterpolantsOf(l, s);
    InterpolantsBounded(l, s);
    ValueInRange(p.m1, p.m2, h + 120);
    ValueInRange(p.m1, p.m2, h);
    ValueInRange(p.m1, p.m2, h - 120);
    Shade(p.m1, p.m2, h)
  }

  /** The `unsigned char *` kernel's four stores for one sample: red, green,
      blue at hues `h + 120`, `h`, `h - 120`, then a fully opaque alpha. */
  function FlatPixel(l: real): (px: seq<byte>)
    requires 0.0 <= l <= 1.0
    ensures |px| == 4
    ensures px[3] == 255
  {
    var sh := ShadeOf(l);
    [Value(sh.m1, sh.m2, sh.h + 120), Value(sh.m1, sh.m2, sh.h), Value(sh.m1, sh.m2, sh.h - 120), 255]
  }

  /** The `uchar4 *` kernel's four field stores for one sample. */
  function PackedPixel(l: real): (p: UChar4)
    requires 0.0 <= l <= 1.0
    ensures p.w == 255
  {
    var sh := ShadeOf(l);
    UChar4(Value(sh.m1, sh.m2, sh.h + 120), Value(sh.m1, sh.m2, sh.h), Value(sh.m1, sh.m2, sh.h - 120), 255)
  }

  /** Both kernels compute the same channels: flat bytes 0..3 of a pixel are
      the packed pixel's `.x .y .z .w`. */
  lemma PixelLayoutsAgree(l: real)
    requires 0.0 <= l <= 1.0
    ensures forall k :: 0 <= k < 4 ==> FlatPixel(l)[k] == Channel(PackedPixel(l), k)
  {
  }

  /** Every colour channel is the textbook HSL channel (hue reduced fully
      modulo 360, trapezoid weight) of the sample's constants at the hues
      120 degrees apart, and lies between the channels of the two constants. */
  lemma PixelMatchesReference(l: real)
    requires 0.0 <= l <= 1.0
    ensures var sh := ShadeOf(l); var p := PackedPixel(l);
      && p.x == Trunc(ReferenceLevel(sh.m1, sh.m2, sh.h + 120))
      && p.y == Trunc(ReferenceLevel(sh.m1, sh.m2, sh.h))
      && p.z == Trunc(ReferenceLevel(sh.m1, sh.m2, sh.h - 120))
      && ToUChar(255.0 * sh.m1) <= p.x <= ToUChar(255.0 * sh.m2)
      && ToUChar(255.0 * sh.m1) <= p.y <= ToUChar(255.0 * sh.m2)
      && ToUChar(255.0 * sh.m1) <= p.z <= ToUChar(255.0 * sh.m2)
  {
    var sh := ShadeOf(l);
    ValueInRange(sh.m1, sh.m2, sh.h + 120);
    ValueInRange(sh.m1, sh.m2, sh.h);
    ValueInRange(sh.m1, sh.m2, sh.h - 120);
  }

  /** Worked samples. Half lightness takes the `l <= 0.5` branch (m1 = 0,
      m2 = 1) and gives pure red; the ends of the range give black and
      white; all are opaque. */
  lemma PixelExamples()
    ensures ShadeOf(0.0) == Shade(0.0, 0.0, 180)
    ensures PackedPixel(0.0) == UChar4(0, 0, 0, 255)
    ensures ShadeOf(0.25) == Shade(0.0, 0.5, 270)
    ensures PackedPixel(0.25) == UChar4(63, 0, 127, 255)
    ensures ShadeOf(0.5) == Shade(0.0, 1.0, 0)
    ensures PackedPixel(0.5) == UChar4(255, 0, 0, 255)
    ensures ShadeOf(0.75) == Shade(0.5, 1.0, 90)
    ensures PackedPixel(0.75) == UChar4(191, 255, 127, 255)
    ensures ShadeOf(1.0) == Shade(1.0, 1.0, 180)
    ensures PackedPixel(1.0) == UChar4(255, 255, 255, 255)
  {
  }
}
