/**
 Index arithmetic of the colour kernel. The same mixed-radix pattern
 `lo + hi * radix` appears three times: a thread's global column
 `threadIdx.x + blockIdx.x * blockDim.x`, the pixel offset `x + y * width`
 and the flat byte index `offset * 4 + k`. Each is a bijection as long as the
 low digit stays below the radix, which is what makes the kernel's writes
 disjoint and complete.
 */
module Grid {

  /** The mixed-radix combination of a low and a high digit. */
  function Linear(lo: int, hi: int, radix: int): int
  {
    lo + hi * radix
  }

  /** With the low digits below the radix, equal combinations have equal
      digits (and conversely). */
  lemma LinearInjective(lo1: int, hi1: int, lo2: int, hi2: int, radix: int)
    requires 0 <= lo1 < radix && 0 <= lo2 < radix
    ensures Linear(lo1, hi1, radix) == Linear(lo2, hi2, radix) <==> lo1 == lo2 && hi1 == hi2
  {
    if Linear(lo1, hi1, radix) == Linear(lo2, hi2, radix) {
      if hi1 < hi2 {
        assert (hi1 + 1) * radix == hi1 * radix + radix;
        MulMonotone(hi1 + 1, hi2, radix);
      } else if hi2 < hi1 {
        assert (hi2 + 1) * radix == hi2 * radix + radix;
        MulMonotone(hi2 + 1, hi1, radix);
      }
    }
  }

  lemma MulMonotone(a: int, b: int, radix: int)
    requires a <= b && 0 <= radix
    ensures a * radix <= b * radix
  {
  }

  /** Every index is the combination of its remainder and quotient. */
  lemma LinearSplit(i: int, radix: int)
    requires 0 < radix
    ensures 0 <= i % radix < radix
    ensures Linear(i % radix, i / radix, radix) == i
  {
  }

  /** Digits in range give an index in range: `lo < radix` and `hi < count`
      place the combination in [0, radix * count). */
  lemma LinearBounds(lo: int, hi: int, radix: int, count: int)
    requires 0 <= lo < radix && 0 <= hi < count
    ensures 0 <= Linear(lo, hi, radix) < radix * count
  {
    MulMonotone(hi + 1, count, radix);
    assert (hi + 1) * radix == hi * radix + radix;
    assert radix * count == count * radix;
  }

  /** Conversely every index in [0, radix * count) has digits in range. */
  lemma LinearSplitBounds(i: int, radix: int, count: int)
    requires 0 < radix && 0 <= i < radix * count
    ensures 0 <= i / radix < count
    ensures Linear(i % radix, i / radix, radix) == i
  {
    LinearSplit(i, radix);
    assert count * radix == radix * count;
    if i / radix >= count {
      MulMonotone(count, i / radix, radix);
    }
  }

  /** A pixel coordinate. */
  datatype Coord = Coord(x: int, y: int)

  predicate InGrid(c: Coord, width: int, height: int)
  {
    0 <= c.x < width && 0 <= c.y < height
  }

  /** `offset = x + y * width`, the pixel's index in both buffers. */
  function Offset(c: Coord, width: int): int
  {
    Linear(c.x, c.y, width)
  }

  /** `offset * 4 + k`, the index of channel `k` of a pixel in the flat
      byte layout. */
  function FlatIndex(offset: int, k: int): int
  {
    Linear(k, offset, 4)
  }

  /** The offset is a bijection from the grid onto [0, width * height):
      distinct pixels get distinct offsets, every offset is in range, and
      every index in range is the offset of a pixel. */
  lemma OffsetInjective(c1: Coord, c2: Coord, width: int, height: int)
    requires InGrid(c1, width, height) && InGrid(c2, width, height)
    ensures 0 <= Offset(c1, width) < width * height
    ensures Offset(c1, width) == Offset(c2, width) <==> c1 == c2
  {
    LinearInjective(c1.x, c1.y, c2.x, c2.y, width);
    LinearBounds(c1.x, c1.y, width, height);
  }

  /** The pixel whose offset is `offset`. */
  function CoordOf(offset: int, width: int): (c: Coord)
    requires 0 < width
    ensures Offset(c, width) == offset
  {
    LinearSplit(offset, width);
    Coord(offset % width, offset / width)
  }

  lemma CoordOfInGrid(offset: int, width: int, height: int)
    requires 0 < width && 0 <= offset < width * height
    ensures InGrid(CoordOf(offset, width), width, height)
  {
    LinearSplitBounds(offset, width, height);
  }

  /** Flat indices of distinct (pixel, channel) pairs are distinct, and the
      four channels of the pixels in [0, n) fill exactly [0, 4 * n). */
  lemma FlatIndexInjective(o1: int, k1: int, o2: int, k2: int, n: int)
    requires 0 <= k1 < 4 && 0 <= k2 < 4
    requires 0 <= o1 < n
    ensures 0 <= FlatIndex(o1, k1) < 4 * n
    ensures FlatIndex(o1, k1) == FlatIndex(o2, k2) <==> o1 == o2 && k1 == k2
  {
    LinearInjective(k1, o1, k2, o2, 4);
    LinearBounds(k1, o1, 4, n);
  }

  /** Every byte of the flat buffer below `4 * n` belongs to one channel of
      one pixel below `n`. */
  lemma FlatIndexSplit(b: int, n: int)
    requires 0 <= b < 4 * n
    ensures 0 <= b / 4 < n && 0 <= b % 4 < 4
    ensures FlatIndex(b / 4, b % 4) == b
  {
    LinearSplitBounds(b, 4, n);
  }

  /** Launch geometry: `gridDim` blocks of `blockDim` threads in each
      dimension. */
  datatype Dim = Dim(x: nat, y: nat)
  datatype Launch = Launch(gridDim: Dim, blockDim: Dim)

  /** The image is as wide and tall as the launch: the kernel's offset uses
      `blockDim.x * gridDim.x` as the row length. */
  function Width(launch: Launch): nat
  {
    launch.blockDim.x * launch.gridDim.x
  }

  function Height(launch: Launch): nat
  {
    launch.blockDim.y * launch.gridDim.y
  }

  /** A thread of the launch, named by its block and its index in the block. */
  datatype Thread = Thread(blockIdx: Dim, threadIdx: Dim)

  predicate ValidThread(t: Thread, launch: Launch)
  {
    && t.blockIdx.x < launch.gridDim.x && t.blockIdx.y < launch.gridDim.y
    && t.threadIdx.x < launch.blockDim.x && t.threadIdx.y < launch.blockDim.y
  }

  /** The pixel a thread computes:
      `x = threadIdx.x + blockIdx.x * blockDim.x`, likewise for `y`. */
  function PixelOfThread(t: Thread, launch: Launch): Coord
  {
    Coord(Linear(t.threadIdx.x, t.blockIdx.x, launch.blockDim.x),
          Linear(t.threadIdx.y, t.blockIdx.y, launch.blockDim.y))
  }

  /** Threads and pixels correspond one to one: every thread of the launch
      computes a pixel of the image, and two threads compute the same pixel
      only if they are the same thread. */
  lemma ThreadsPartitionGrid(t1: Thread, t2: Thread, launch: Launch)
    requires ValidThread(t1, launch) && ValidThread(t2, launch)
    ensures InGrid(PixelOfThread(t1, launch), Width(launch), Height(launch))
    ensures PixelOfThread(t1, launch) == PixelOfThread(t2, launch) <==> t1 == t2
  {
    var b := launch.blockDim;
    LinearBounds(t1.threadIdx.x, t1.blockIdx.x, b.x, launch.gridDim.x);
    LinearBounds(t1.threadIdx.y, t1.blockIdx.y, b.y, launch.gridDim.y);
    LinearInjective(t1.threadIdx.x, t1.blockIdx.x, t2.threadIdx.x, t2.blockIdx.x, b.x);
    LinearInjective(t1.threadIdx.y, t1.blockIdx.y, t2.threadIdx.y, t2.blockIdx.y, b.y);
  }

  /** Every pixel of the image is computed by some thread of the launch. */
  function ThreadOfPixel(c: Coord, launch: Launch): (t: Thread)
    requires InGrid(c, Width(launch), Height(launch))
    ensures ValidThread(t, launch)
    ensures PixelOfThread(t, launch) == c
  {
    var b := launch.blockDim;
    LinearSplitBounds(c.x, b.x, launch.gridDim.x);
    LinearSplitBounds(c.y, b.y, launch.gridDim.y);
    Thread(Dim(c.x / b.x, c.y / b.y), Dim(c.x % b.x, c.y % b.y))
  }
}
