/**
 The two `float_to_color` kernel launches over a whole field. The CUDA grid
 runs one thread per pixel in no particular order; here the threads run one
 after another in the order given by a schedule, which may be any
 enumeration of the grid's pixels that lists each exactly once. Each launch
 returns the resulting buffer and the trace of the buffer slots it stored
 to, in order.
 */
module FloatToColor {
  import opened CArith
  import opened Grid
  import opened ColorMap

  /** The field samples a launch over `n` pixels reads are all lightnesses. */
  predicate ValidField(outSrc: seq<real>, n: nat)
  {
    n <= |outSrc| && forall o :: 0 <= o < n ==> 0.0 <= outSrc[o] <= 1.0
  }

  /** A schedule of the grid: every entry is a pixel of the grid, no pixel
      is listed twice and no pixel is missed. */
  predicate IsSchedule(schedule: seq<Coord>, width: nat, height: nat)
  {
    && (forall i :: 0 <= i < |schedule| ==> InGrid(schedule[i], width, height))
    && (forall i, j :: 0 <= i < j < |schedule| ==> schedule[i] != schedule[j])
    && (forall x, y :: 0 <= x < width && 0 <= y < height ==> Coord(x, y) in schedule)
  }

  /** The flat buffer a complete launch over `n` pixels leaves behind: the
      four channels of pixel `o` at `o * 4 + 0..3`, and every byte from
      `4 * n` on as it was. */
  function FlatImage(optr: seq<byte>, outSrc: seq<real>, n: nat): (img: seq<byte>)
    requires ValidField(outSrc, n) && 4 * n <= |optr|
    ensures |img| == |optr|
    ensures forall o, k :: 0 <= o < n && 0 <= k < 4 ==> img[FlatIndex(o, k)] == FlatPixel(outSrc[o])[k]
    ensures forall b :: 4 * n <= b < |optr| ==> img[b] == optr[b]
  {
    var img := seq(|optr|, b requires 0 <= b < |optr| =>
      if b < 4 * n then FlatPixel(outSrc[b / 4])[b % 4] else optr[b]);
    assert forall o, k :: 0 <= o < n && 0 <= k < 4 ==> img[FlatIndex(o, k)] == FlatPixel(outSrc[o])[k] by {
      forall o, k | 0 <= o < n && 0 <= k < 4
        ensures img[FlatIndex(o, k)] == FlatPixel(outSrc[o])[k]
      {
        var b := FlatIndex(o, k);
        FlatIndexInjective(o, k, b / 4, b % 4, n);
        FlatIndexSplit(b, n);
      }
    }
    img
  }

  /** The packed buffer a complete launch over `n` pixels leaves behind. */
  function PackedImage(optr: seq<UChar4>, outSrc: seq<real>, n: nat): (img: seq<UChar4>)
    requires ValidField(outSrc, n) && n <= |optr|
    ensures |img| == |optr|
    ensures forall o :: 0 <= o < n ==> img[o] == PackedPixel(outSrc[o])
    ensures forall o :: n <= o < |optr| ==> img[o] == optr[o]
  {
    seq(|optr|, o requires 0 <= o < |optr| => if o < n then PackedPixel(outSrc[o]) else optr[o])
  }

  /** The two layouts hold the same picture: for every pixel, flat bytes
      `o * 4 + 0..3` are the packed pixel's `.x .y .z .w`, and both alphas
      are 255. */
  lemma ImageLayoutsAgree(flat: seq<byte>, packed: seq<UChar4>, outSrc: seq<real>, n: nat)
    requires ValidField(outSrc, n) && 4 * n <= |flat| && n <= |packed|
    ensures forall o, k :: 0 <= o < n && 0 <= k < 4 ==>
      FlatImage(flat, outSrc, n)[FlatIndex(o, k)] == Channel(PackedImage(packed, outSrc, n)[o], k)
    ensures forall o :: 0 <= o < n ==>
      FlatImage(flat, outSrc, n)[FlatIndex(o, 3)] == PackedImage(packed, outSrc, n)[o].w == 255
  {
    forall o | 0 <= o < n {
      PixelLayoutsAgree(outSrc[o]);
    }
  }

  /** A field of one repeated sample gives an image of one repeated pixel:
      nothing but the sample reaches the per-pixel computation. This holds
      of both layouts, slot by slot and channel by channel. */
  lemma UniformFieldUniformImage(flat: seq<byte>, packed: seq<UChar4>, outSrc: seq<real>, n: nat)
    requires ValidField(outSrc, n) && 4 * n <= |flat| && n <= |packed|
    requires forall o :: 0 <= o < n ==> outSrc[o] == outSrc[0]
    ensures forall o :: 0 <= o < n ==> PackedImage(packed, outSrc, n)[o] == PackedImage(packed, outSrc, n)[0]
    ensures forall o, k :: 0 <= o < n && 0 <= k < 4 ==>
      FlatImage(flat, outSrc, n)[FlatIndex(o, k)] == FlatImage(flat, outSrc, n)[FlatIndex(0, k)]
  {
  }

  /** Offsets of the scheduled pixels: each in range, no two equal. */
  lemma ScheduleOffsets(schedule: seq<Coord>, width: nat, height: nat)
    requires IsSchedule(schedule, width, height)
    ensures forall i :: 0 <= i < |schedule| ==> 0 <= Offset(schedule[i], width) < width * height
    ensures forall i, j :: 0 <= i < |schedule| && 0 <= j < |schedule| && i != j ==>
      Offset(schedule[i], width) != Offset(schedule[j], width)
  {
    forall i, j | 0 <= i < |schedule| && 0 <= j < |schedule|
      ensures 0 <= Offset(schedule[i], width) < width * height
      ensures i != j ==> Offset(schedule[i], width) != Offset(schedule[j], width)
    {
      OffsetInjective(schedule[i], schedule[j], width, height);
    }
  }

  /** Every pixel offset of the grid is the offset of some scheduled pixel. */
  lemma ScheduleCoversOffsets(schedule: seq<Coord>, width: nat, height: nat, o: int)
    requires IsSchedule(schedule, width, height)
    requires 0 <= o < width * height
    ensures exists i :: 0 <= i < |schedule| && Offset(schedule[i], width) == o
  {
    var c := CoordOf(o, width);
    CoordOfInGrid(o, width, height);
    assert Coord(c.x, c.y) in schedule;
    var i :| 0 <= i < |schedule| && schedule[i] == c;
  }

  /** A launch of a kernel whose thread for the pixel at `offset` computes
      `pixel(offset)` and stores its four bytes at `offset * 4 + 0..3`, one
      thread after another in the order of the schedule. Whatever the
      schedule, every byte of the first `4 * width * height` ends up holding
      its pixel's channel and is stored exactly once, and no byte beyond them
      is touched. */
  method LaunchFlat<T>(optr: seq<T>, pixel: int --> seq<T>, width: nat, height: nat, schedule: seq<Coord>)
    returns (out: seq<T>, writes: seq<int>)
    requires 4 * (width * height) <= |optr|
    requires forall o :: 0 <= o < width * height ==> pixel.requires(o) && |pixel(o)| == 4
    requires IsSchedule(schedule, width, height)
    ensures |out| == |optr|
    ensures forall o, k :: 0 <= o < width * height && 0 <= k < 4 ==> out[FlatIndex(o, k)] == pixel(o)[k]
    ensures forall b :: 4 * (width * height) <= b < |optr| ==> out[b] == optr[b]
    ensures forall p :: 0 <= p < |writes| ==> 0 <= writes[p] < 4 * (width * height)
    ensures forall p, q :: 0 <= p < q < |writes| ==> writes[p] != writes[q]
    ensures forall b :: 0 <= b < 4 * (width * height) ==> b in writes
  {
    var n := width * height;
    out, writes := optr, [];
    ghost var done: set<int> := {};
    var i := 0;
    while i < |schedule|
      invariant 0 <= i <= |schedule|
      invariant |out| == |optr|
      invariant |writes| == 4 * i
      invariant FlatTrace(writes, schedule, width, i)
      invariant forall j :: 0 <= j < i ==> Offset(schedule[j], width) in done
      invariant forall o :: o in done ==> 0 <= o < n
      invariant forall o, k :: o in done && 0 <= k < 4 ==> out[FlatIndex(o, k)] == pixel(o)[k]
      invariant forall b :: 4 * n <= b < |out| ==> out[b] == optr[b]
    {
      var offset := Offset(schedule[i], width);
      OffsetInjective(schedule[i], schedule[i], width, height);
      var before := out;
      out := StorePixelBytes(before, offset, pixel(offset));
      StoreKeepsDonePixels(before, out, done, offset, pixel, n);
      FlatTraceGrows(writes, schedule, width, i);
      writes := writes + [FlatIndex(offset, 0), FlatIndex(offset, 1), FlatIndex(offset, 2), FlatIndex(offset, 3)];
      done := done + {offset};
      i := i + 1;
    }
    forall o | 0 <= o < n
      ensures o in done
    {
      ScheduleCoversOffsets(schedule, width, height, o);
    }
    FlatTraceComplete(writes, schedule, width, height);
  }

  /** One thread's four stores `optr[offset * 4 + k] = px[k]`: the pixel's
      bytes change and no other. */
  function StorePixelBytes<T>(buf: seq<T>, offset: int, px: seq<T>): (r: seq<T>)
    requires |px| == 4 && 0 <= FlatIndex(offset, 0) && FlatIndex(offset, 3) < |buf|
    ensures |r| == |buf|
    ensures forall k :: 0 <= k < 4 ==> r[FlatIndex(offset, k)] == px[k]
    ensures forall b :: 0 <= b < |buf| && (b < FlatIndex(offset, 0) || FlatIndex(offset, 3) < b) ==> r[b] == buf[b]
  {
    buf[FlatIndex(offset, 0) := px[0]][FlatIndex(offset, 1) := px[1]]
       [FlatIndex(offset, 2) := px[2]][FlatIndex(offset, 3) := px[3]]
  }

  /** The store trace of the first `i` threads of a flat launch: thread `j`
      stored its pixel's four bytes at trace positions `4 * j + 0..3`. */
  predicate FlatTrace(writes: seq<int>, schedule: seq<Coord>, width: nat, i: nat)
  {
    && i <= |schedule|
    && |writes| == 4 * i
    && forall j, k :: 0 <= j < i && 0 <= k < 4 ==>
         writes[FlatIndex(j, k)] == FlatIndex(Offset(schedule[j], width), k)
  }

  /** Thread `i`'s four stores extend the trace of the threads before it. */
  lemma FlatTraceGrows(writes: seq<int>, schedule: seq<Coord>, width: nat, i: nat)
    requires i < |schedule| && FlatTrace(writes, schedule, width, i)
    ensures var offset := Offset(schedule[i], width);
      FlatTrace(writes + [FlatIndex(offset, 0), FlatIndex(offset, 1), FlatIndex(offset, 2), FlatIndex(offset, 3)],
                schedule, width, i + 1)
  {
    var offset := Offset(schedule[i], width);
    var grown := writes + [FlatIndex(offset, 0), FlatIndex(offset, 1), FlatIndex(offset, 2), FlatIndex(offset, 3)];
    forall j, k | 0 <= j < i + 1 && 0 <= k < 4
      ensures grown[FlatIndex(j, k)] == FlatIndex(Offset(schedule[j], width), k)
    {
      FlatIndexInjective(j, k, 0, 0, i + 1);
      if j < i {
        FlatIndexInjective(j, k, 0, 0, i);
      }
    }
  }

  /** After one thread's stores, the pixels finished earlier still hold
      their bytes and the thread's own pixel holds its new ones. */
  lemma StoreKeepsDonePixels<T>(before: seq<T>, after: seq<T>, done: set<int>, offset: int,
                                pixel: int --> seq<T>, n: int)
    requires 0 <= offset < n && 4 * n <= |before|
    requires forall o :: 0 <= o < n ==> pixel.requires(o) && |pixel(o)| == 4
    requires forall o :: o in done ==> 0 <= o < n
    requires forall o, k :: o in done && 0 <= k < 4 ==> before[FlatIndex(o, k)] == pixel(o)[k]
    requires after == StorePixelBytes(before, offset, pixel(offset))
    ensures forall o, k :: o in done + {offset} && 0 <= k < 4 ==> after[FlatIndex(o, k)] == pixel(o)[k]
  {
  }

  /** The trace a flat launch leaves, four consecutive bytes per scheduled
      pixel, lists every byte of the first `4 * width * height` exactly once. */
  lemma FlatTraceComplete(writes: seq<int>, schedule: seq<Coord>, width: nat, height: nat)
    requires IsSchedule(schedule, width, height)
    requires FlatTrace(writes, schedule, width, |schedule|)
    ensures forall p :: 0 <= p < |writes| ==> 0 <= writes[p] < 4 * (width * height)
    ensures forall p, q :: 0 <= p < q < |writes| ==> writes[p] != writes[q]
    ensures forall b :: 0 <= b < 4 * (width * height) ==> b in writes
  {
    var n := width * height;
    ScheduleOffsets(schedule, width, height);
    forall b | 0 <= b < 4 * n
      ensures b in writes
    {
      FlatIndexSplit(b, n);
      var o, k := b / 4, b % 4;
      ScheduleCoversOffsets(schedule, width, height, o);
      var j :| 0 <= j < |schedule| && Offset(schedule[j], width) == o;
      FlatIndexInjective(j, k, j, k, |schedule|);
      assert writes[FlatIndex(j, k)] == b;
    }
    forall p | 0 <= p < |writes|
      ensures 0 <= writes[p] < 4 * n
    {
      FlatIndexSplit(p, |schedule|);
      FlatIndexInjective(Offset(schedule[p / 4], width), p % 4, 0, 0, n);
    }
    forall p, q | 0 <= p < q < |writes|
      ensures writes[p] != writes[q]
    {
      FlatIndexSplit(p, |schedule|);
      FlatIndexSplit(q, |schedule|);
      var jp, kp, jq, kq := p / 4, p % 4, q / 4, q % 4;
      FlatIndexInjective(Offset(schedule[jp], width), kp, Offset(schedule[jq], width), kq, n);
      FlatIndexInjective(jp, kp, jq, kq, |schedule|);
    }
  }

  /** A launch of a kernel whose thread for the pixel at `offset` stores
      `pixel(offset)` into slot `offset`, in the order of the schedule.
      Whatever the schedule, every slot of the first `width * height` ends
      up holding its pixel and is stored exactly once, and no slot beyond
      them is touched. */
  method LaunchPacked<P>(optr: seq<P>, pixel: int --> P, width: nat, height: nat, schedule: seq<Coord>)
    returns (out: seq<P>, writes: seq<int>)
    requires width * height <= |optr|
    requires forall o :: 0 <= o < width * height ==> pixel.requires(o)
    requires IsSchedule(schedule, width, height)
    ensures |out| == |optr|
    ensures forall o :: 0 <= o < width * height ==> out[o] == pixel(o)
    ensures forall o :: width * height <= o < |optr| ==> out[o] == optr[o]
    ensures forall p :: 0 <= p < |writes| ==> 0 <= writes[p] < width * height
    ensures forall p, q :: 0 <= p < q < |writes| ==> writes[p] != writes[q]
    ensures forall o :: 0 <= o < width * height ==> o in writes
  {
    var n := width * height;
    out, writes := optr, [];
    ghost var done: set<int> := {};
    var i := 0;
    while i < |schedule|
      invariant 0 <= i <= |schedule|
      invariant |out| == |optr|
      invariant |writes| == i
      invariant forall j :: 0 <= j < i ==> writes[j] == Offset(schedule[j], width)
      invariant forall p :: 0 <= p < |writes| ==> 0 <= writes[p] < n
      invariant forall j :: 0 <= j < i ==> Offset(schedule[j], width) in done
      invariant forall o :: o in done ==> 0 <= o < n && out[o] == pixel(o)
      invariant forall o :: n <= o < |out| ==> out[o] == optr[o]
    {
      var offset := Offset(schedule[i], width);
      OffsetInjective(schedule[i], schedule[i], width, height);
      out := out[offset := pixel(offset)];
      writes := writes + [offset];
      done := done + {offset};
      i := i + 1;
    }
    forall o | 0 <= o < n
      ensures o in done
    {
      ScheduleCoversOffsets(schedule, width, height, o);
    }
    PackedTraceComplete(writes, schedule, width, height);
  }

  /** The trace a packed launch leaves, one slot per scheduled pixel, lists
      every slot of the first `width * height` exactly once. */
  lemma PackedTraceComplete(writes: seq<int>, schedule: seq<Coord>, width: nat, height: nat)
    requires IsSchedule(schedule, width, height)
    requires |writes| == |schedule|
    requires forall j :: 0 <= j < |schedule| ==> writes[j] == Offset(schedule[j], width)
    ensures forall p, q :: 0 <= p < q < |writes| ==> writes[p] != writes[q]
    ensures forall o :: 0 <= o < width * height ==> o in writes
  {
    ScheduleOffsets(schedule, width, height);
    forall o | 0 <= o < width * height
      ensures o in writes
    {
      ScheduleCoversOffsets(schedule, width, height, o);
    }
  }

  /** The `unsigned char *` kernel `float_to_color(optr, outSrc)` launched
      over a `width` by `height` grid: each thread reads its sample and
      stores its pixel's bytes. The result is the flat image whatever the
      order the threads run in, which also makes the launch deterministic. */
  method FloatToColorFlat(optr: seq<byte>, outSrc: seq<real>, width: nat, height: nat, schedule: seq<Coord>)
    returns (out: seq<byte>, writes: seq<int>)
    requires ValidField(outSrc, width * height)
    requires 4 * (width * height) <= |optr|
    requires IsSchedule(schedule, width, height)
    ensures out == FlatImage(optr, outSrc, width * height)
    ensures forall p, q :: 0 <= p < q < |writes| ==> writes[p] != writes[q]
    ensures forall b :: 0 <= b < 4 * (width * height) <==> b in writes
  {
    var n := width * height;
    var thread := o requires 0 <= o < n => FlatPixel(outSrc[o]);
    out, writes := LaunchFlat(optr, thread, width, height, schedule);
    FlatBuffersEqual(out, FlatImage(optr, outSrc, n), n);
  }

  /** Two flat buffers that agree on every channel of the first `n` pixels
      and on every byte after them are equal. */
  lemma FlatBuffersEqual<T>(a: seq<T>, b: seq<T>, n: nat)
    requires |a| == |b| && 4 * n <= |a|
    requires forall o, k :: 0 <= o < n && 0 <= k < 4 ==> a[FlatIndex(o, k)] == b[FlatIndex(o, k)]
    requires forall i :: 4 * n <= i < |a| ==> a[i] == b[i]
    ensures a == b
  {
    forall i | 0 <= i < 4 * n
      ensures a[i] == b[i]
    {
      FlatIndexSplit(i, n);
    }
  }

  /** The `uchar4 *` kernel `float_to_color(optr, outSrc)` launched over a
      `width` by `height` grid. The result is the packed image whatever the
      order the threads run in. */
  method FloatToColorPacked(optr: seq<UChar4>, outSrc: seq<real>, width: nat, height: nat, schedule: seq<Coord>)
    returns (out: seq<UChar4>, writes: seq<int>)
    requires ValidField(outSrc, width * height)
    requires width * height <= |optr|
    requires IsSchedule(schedule, width, height)
    ensures out == PackedImage(optr, outSrc, width * height)
    ensures forall p, q :: 0 <= p < q < |writes| ==> writes[p] != writes[q]
    ensures forall o :: 0 <= o < width * height <==> o in writes
  {
    var n := width * height;
    var thread := o requires 0 <= o < n => PackedPixel(outSrc[o]);
    out, writes := LaunchPacked(optr, thread, width, height, schedule);
  }
}
