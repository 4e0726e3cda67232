/**
 The hue-to-channel evaluator `value(n1, n2, hue)`: one colour channel of the
 HSL-to-RGB conversion. `n1` and `n2` are the lower and upper interpolation
 constants derived from lightness and saturation; `hue` is an angle in whole
 degrees that may lie up to one period outside the canonical range.
 */
module HueChannel {
  import opened CArith

  /** The evaluator's hue correction: 360 is subtracted only when the hue
      exceeds 360 and added only when it is negative, once, never repeated. */
  function WrapHue(hue: int): (w: int)
    ensures (w - hue) % 360 == 0
    ensures Abs(w - hue) <= 360
    ensures 0 <= hue <= 360 ==> w == hue
    ensures -360 <= hue <= 720 <==> 0 <= w <= 360
  {
    if hue > 360 then hue - 360
    else if hue < 0 then hue + 360
    else hue
  }

  /** The single correction agrees with reduction modulo 360 on exactly the
      hues in [-360, 720) other than 360: it keeps 360 (and maps 720 to 360)
      and leaves hues more than a period away out of range. */
  lemma WrapHueIsModuloExactly(hue: int)
    ensures WrapHue(hue) == hue % 360 <==> -360 <= hue < 720 && hue != 360
  {
  }

  /** On one period either side of the canonical range the correction is a
      reduction modulo 360, except that a full turn is reported as 360. */
  lemma WrapHueOnePeriod(hue: int)
    requires -360 <= hue <= 720
    ensures WrapHue(hue) == hue % 360 || (WrapHue(hue) == 360 && hue % 360 == 0)
  {
  }

  /** Worked cases of the single correction. */
  lemma WrapHueExamples()
    ensures WrapHue(360) == 360
    ensures WrapHue(361) == 1
    ensures WrapHue(-1) == 359
    ensures WrapHue(721) == 361
    ensures WrapHue(-361) == -1
  {
  }

  /** The value the evaluator casts to `unsigned char`, computed in exact
      arithmetic: after the correction the branch depends only on the hue,
      with a rising ramp below 60, the upper constant up to 180, a falling
      ramp up to 240 and the lower constant from 240 on (360 included). */
  function Level(n1: real, n2: real, hue: int): real
  {
    var h := WrapHue(hue);
    if h < 60 then 255.0 * (n1 + (n2 - n1) * (h as real) / 60.0)
    else if h < 180 then 255.0 * n2
    else if h < 240 then 255.0 * (n1 + (n2 - n1) * ((240 - h) as real) / 60.0)
    else 255.0 * n1
  }

  function Min(a: int, b: int): int
  {
    if a <= b then a else b
  }

  function Clamp01(x: real): (r: real)
    ensures 0.0 <= r <= 1.0
    ensures 0.0 <= x <= 1.0 ==> r == x
  {
    if x < 0.0 then 0.0 else if x > 1.0 then 1.0 else x
  }

  /** The textbook HSL channel weight at a canonical hue in [0, 360): the
      share of the upper constant is a trapezoid that climbs over the first
      60 degrees, stays full until 180, falls back by 240 and is zero after. */
  function Weight(theta: int): (w: real)
    ensures 0.0 <= w <= 1.0
  {
    Clamp01((Min(theta, 240 - theta) as real) / 60.0)
  }

  /** The textbook channel level: reduce the hue fully modulo 360, then
      interpolate between the two constants by the trapezoid weight. */
  function ReferenceLevel(n1: real, n2: real, hue: int): real
  {
    255.0 * (n1 + (n2 - n1) * Weight(hue % 360))
  }

  /** Within one period of the canonical range the evaluator's single
      correction and its four branches compute the textbook level. */
  lemma LevelMatchesReference(n1: real, n2: real, hue: int)
    ensures -360 <= hue <= 720 ==> Level(n1, n2, hue) == ReferenceLevel(n1, n2, hue)
  {
    if -360 <= hue <= 720 {
      var h := WrapHue(hue);
      WrapHueOnePeriod(hue);
      if h == 360 {
        assert hue % 360 == 0;
        assert Weight(0) == 0.0;
      } else {
        assert h == hue % 360;
        if h < 60 {
          assert Min(h, 240 - h) == h;
        } else if h < 180 {
          assert Min(h, 240 - h) >= 60;
          assert Weight(h) == 1.0;
        } else if h < 240 {
          assert Min(h, 240 - h) == 240 - h;
        } else {
          assert Weight(h) == 0.0;
        }
      }
    }
  }

  /** The branch is chosen by the corrected hue alone: for every hue from
      -360 on (including those the correction leaves above 360) the level
      interpolates between the constants by the trapezoid weight of the
      corrected hue, whatever the constants are. */
  lemma LevelIsWeightOfCorrectedHue(n1: real, n2: real, hue: int)
    requires -360 <= hue
    ensures Level(n1, n2, hue) == 255.0 * (n1 + (n2 - n1) * Weight(WrapHue(hue)))
  {
    var h := WrapHue(hue);
    if h < 60 {
      assert Min(h, 240 - h) == h;
    } else if h < 180 {
      assert Min(h, 240 - h) >= 60;
      assert Weight(h) == 1.0;
    } else if h < 240 {
      assert Min(h, 240 - h) == 240 - h;
    } else {
      assert Weight(h) == 0.0;
    }
  }

  /** Below one period the corrected hue is still negative and the rising
      ramp is not clamped: at -361 degrees the level falls below the lower
      constant, out of the range where the channel cast is defined. */
  lemma RampBelowOnePeriodOvershoots()
    ensures WrapHue(-361) == -1
    ensures Level(0.0, 1.0, -361) == -4.25
    ensures !UCharDefined(Level(0.0, 1.0, -361))
  {
  }

  /** Within one period of the canonical range the level lies between the
      two scaled constants, whichever of them is larger. */
  lemma LevelBetween(n1: real, n2: real, hue: int)
    requires -360 <= hue <= 720
    ensures n1 <= n2 ==> 255.0 * n1 <= Level(n1, n2, hue) <= 255.0 * n2
    ensures n2 <= n1 ==> 255.0 * n2 <= Level(n1, n2, hue) <= 255.0 * n1
  {
    LevelMatchesReference(n1, n2, hue);
    var w := Weight(hue % 360);
    var d := n2 - n1;
    ScaleBetween(d, w);
    if n1 <= n2 {
      assert n1 <= n1 + d * w <= n2;
    } else {
      assert n2 <= n1 + d * w <= n1;
    }
  }

  /** Scaling by a weight in [0, 1] moves a difference toward zero. */
  lemma ScaleBetween(d: real, w: real)
    requires 0.0 <= w <= 1.0
    ensures 0.0 <= d ==> 0.0 <= d * w <= d
    ensures d <= 0.0 ==> d <= d * w <= 0.0
  {
  }

  /** The evaluator `value(n1, n2, hue)`: the level cast to `unsigned char`.
      C defines the cast only when the level truncates into [0, 255]. */
  function Value(n1: real, n2: real, hue: int): (c: byte)
    requires UCharDefined(Level(n1, n2, hue))
    ensures -360 <= hue <= 720 ==> c == Trunc(ReferenceLevel(n1, n2, hue))
  {
    LevelMatchesReference(n1, n2, hue);
    ToUChar(Level(n1, n2, hue))
  }

  /** For constants in [0, 1] and a hue within one period of the canonical
      range the cast is always defined, and the channel lies between the
      channels of the two constants. */
  lemma ValueInRange(n1: real, n2: real, hue: int)
    requires 0.0 <= n1 <= 1.0 && 0.0 <= n2 <= 1.0
    requires -360 <= hue <= 720
    ensures 0.0 <= Level(n1, n2, hue) <= 255.0
    ensures n1 <= n2 ==> ToUChar(255.0 * n1) <= Value(n1, n2, hue) <= ToUChar(255.0 * n2)
    ensures n2 <= n1 ==> ToUChar(255.0 * n2) <= Value(n1, n2, hue) <= ToUChar(255.0 * n1)
  {
    LevelBetween(n1, n2, hue);
    var v := Level(n1, n2, hue);
    if n1 <= n2 {
      ToUCharMonotone(255.0 * n1, v);
      ToUCharMonotone(v, 255.0 * n2);
    } else {
      ToUCharMonotone(255.0 * n2, v);
      ToUCharMonotone(v, 255.0 * n1);
    }
  }

  /** A hue more than one period above the range is corrected only once, so
      it is not evaluated like its canonical angle: at 721 degrees the
      evaluator takes the lower constant while the textbook rising ramp at
      1 degree already gives channel 4. */
  lemma SingleCorrectionIsNotModulo()
    ensures Level(0.0, 1.0, 721) == 0.0
    ensures ReferenceLevel(0.0, 1.0, 721) == 4.25
    ensures Value(0.0, 1.0, 721) == 0 != ToUChar(ReferenceLevel(0.0, 1.0, 721))
  {
    assert WrapHue(721) == 361;
    assert 721 % 360 == 1;
    assert Weight(1) == 1.0 / 60.0;
  }
}
