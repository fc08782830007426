// Types shared by the stages of the semi-global matcher: the integer widths the
// C++ buffers use, the disparity value with its Invalid sentinel, pixels, the
// option record, and the row-major index arithmetic every stage relies on.
module SgmTypes {

  const UINT8_MAX: int := 255
  const UINT16_MAX: int := 65535
  /** Cost stored for a pixel pair that falls outside the image (UINT8_MAX / 2). */
  const OUT_OF_IMAGE_COST: int := 127

  type u8 = x: int | 0 <= x <= 255
  type u16 = x: int | 0 <= x <= 65535

  /** A disparity: a real (the model of a float32) or the Invalid sentinel. */
  datatype Disp = Invalid | Val(r: real)

  /** The sentinel compares as +infinity: it exceeds every disparity. */
  predicate Exceeds(a: Disp, x: real)
  {
    a.Invalid? || a.r > x
  }

  datatype Option<T> = None | Some(value: T)

  /** A pixel as the source stores it: (row, column). */
  datatype Pixel = Pixel(row: int, col: int)

  datatype CensusSize = Census5x5 | Census9x7

  datatype SgmOption = SgmOption(
    minDisparity: int,
    maxDisparity: int,
    censusSize: CensusSize,
    numPaths: int,
    p1: int,
    p2Init: int,
    isCheckUnique: bool,
    uniquenessRatio: real,
    isCheckLr: bool,
    lrcheckThres: real,
    isRemoveSpeckles: bool,
    minSpeckleArea: int,
    isFillHoles: bool)
  {
    function DispRange(): int { maxDisparity - minDisparity }
  }

  /** Width in bits of the census code words (uint32 for 5x5, uint64 for 9x7). */
  function CensusBits(c: CensusSize): (bits: nat)
    ensures bits == 32 || bits == 64
  {
    if c == Census5x5 then 32 else 64
  }

  /** Row-major index of pixel (i, j). */
  function Flat(width: int, p: Pixel): int
  {
    p.row * width + p.col
  }

  /** The pixel with row-major index t. */
  function PixelOf(width: int, t: int): Pixel
    requires width > 0
  {
    Pixel(t / width, t % width)
  }

  predicate InImage(width: int, height: int, p: Pixel)
  {
    0 <= p.row < height && 0 <= p.col < width
  }

  /** Integer conversion of the source's `static_cast<sint32>`: truncation toward zero. */
  function Trunc(x: real): int
  {
    if x >= 0.0 then x.Floor else -((-x).Floor)
  }

  function Abs(x: real): real { if x < 0.0 then -x else x }

  // ---- row-major index arithmetic -------------------------------------------

  /** Multiplication by a non-negative factor is monotone. */
  lemma {:induction false} MulMono(a: int, b: int, n: int)
    requires a <= b && n >= 0
    ensures a * n <= b * n
    decreases n
  {
    if n > 0 {
      MulMono(a, b, n - 1);
      assert a * n == a * (n - 1) + a && b * n == b * (n - 1) + b;
    }
  }

  /** Division is unique: a quotient/remainder pair determines t / n and t % n. */
  lemma DivModUnique(t: int, n: int, q: int, r: int)
    requires n > 0 && 0 <= r < n && t == q * n + r
    ensures t / n == q && t % n == r
  {
    var q', r' := t / n, t % n;
    assert t == q' * n + r';
    if q' < q {
      MulMono(q' + 1, q, n);
    } else if q' > q {
      MulMono(q + 1, q', n);
    }
  }

  /** Pixel (i, j) of a W x H image has an index below W * H, and decodes back to (i, j). */
  lemma FlatInRange(width: int, height: int, p: Pixel)
    requires width > 0 && InImage(width, height, p)
    ensures 0 <= Flat(width, p) < width * height
    ensures PixelOf(width, Flat(width, p)) == p
  {
    MulMono(0, p.row, width);
    MulMono(p.row + 1, height, width);
    assert (p.row + 1) * width == p.row * width + width;
    assert height * width == width * height;
    DivModUnique(Flat(width, p), width, p.row, p.col);
  }

  /** Every index below W * H is a pixel inside the image. */
  lemma PixelOfInImage(width: int, height: int, t: int)
    requires width > 0 && 0 <= t < width * height
    ensures InImage(width, height, PixelOf(width, t))
    ensures Flat(width, PixelOf(width, t)) == t
  {
    var q := t / width;
    assert t == q * width + t % width;
    if q < 0 {
      MulMono(q, -1, width);
    }
    if q >= height {
      MulMono(height, q, width);
    }
  }

  /** The pixel in column c of the row of index t is inside the image. */
  lemma SameRow(width: int, height: int, t: int, c: int)
    requires width > 0 && 0 <= t < width * height && 0 <= c < width
    ensures InImage(width, height, Pixel(t / width, c))
    ensures 0 <= (t / width) * width + c < width * height
  {
    PixelOfInImage(width, height, t);
    FlatInRange(width, height, Pixel(t / width, c));
  }

  /** The cost-volume index of the source, i*W*D + j*D + k, is (i*W + j)*D + k, in bounds. */
  lemma VolumeIndex(width: int, height: int, range: int, i: int, j: int, k: int)
    requires width > 0 && range > 0
    requires 0 <= i < height && 0 <= j < width && 0 <= k < range
    ensures i * width * range + j * range + k == (i * width + j) * range + k
    ensures 0 <= (i * width + j) * range + k < width * height * range
    ensures ((i * width + j) * range + k) / range == i * width + j
    ensures ((i * width + j) * range + k) % range == k
  {
    FlatInRange(width, height, Pixel(i, j));
    var p := i * width + j;
    assert i * width * range + j * range == p * range;
    MulMono(0, p, range);
    MulMono(p + 1, width * height, range);
    assert (p + 1) * range == p * range + range;
    DivModUnique(p * range + k, range, p, k);
  }

  /** Decomposes a cost-volume index into pixel and disparity offset. */
  lemma VolumeIndexSplit(width: int, height: int, range: int, t: int)
    requires width > 0 && range > 0 && 0 <= t < width * height * range
    ensures 0 <= t / range < width * height && 0 <= t % range < range
    ensures t == (t / range) * range + t % range
  {
    var q := t / range;
    assert t == q * range + t % range;
    if q < 0 {
      MulMono(q, -1, range);
    }
    if q >= width * height {
      MulMono(width * height, q, range);
    }
  }
}
