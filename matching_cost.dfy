// The initial matching cost: the Hamming distance between census codes
// (sgm_util::Hamming32 / Hamming64) and the cost volume that
// SemiGlobalMatching::ComputeCost fills from it.
module MatchingCost {
  import opened SgmTypes

  /** Number of bit positions below `bits` in which a and b differ. */
  function Hamming(a: nat, b: nat, bits: nat): (n: nat)
    ensures n <= bits
    decreases bits
  {
    if bits == 0 then 0
    else (if a % 2 != b % 2 then 1 else 0) + Hamming(a / 2, b / 2, bits - 1)
  }

  /**
   * Cost of left pixel (i, j) at disparity d: the census distance to right
   * pixel (i, j - d), or UINT8_MAX / 2 when column j - d is outside the image.
   */
  function CostEntry(censusLeft: seq<nat>, censusRight: seq<nat>, width: int, height: int,
                     bits: nat, i: int, j: int, d: int): (c: u8)
    requires bits <= 64 && width > 0 && InImage(width, height, Pixel(i, j))
    requires |censusLeft| == width * height && |censusRight| == width * height
    ensures c <= OUT_OF_IMAGE_COST
    ensures (j - d < 0 || j - d >= width) ==> c == OUT_OF_IMAGE_COST
  {
    FlatInRange(width, height, Pixel(i, j));
    if j - d < 0 || j - d >= width then OUT_OF_IMAGE_COST
    else
      FlatInRange(width, height, Pixel(i, j - d));
      Hamming(censusLeft[i * width + j], censusRight[i * width + j - d], bits)
  }

  /**
   * The cost volume: entry (i*W + j)*D + (d - min_disparity) holds the cost of
   * pixel (i, j) at disparity d, for every d in [min_disparity, max_disparity).
   */
  function CostVolume(censusLeft: seq<nat>, censusRight: seq<nat>, width: int, height: int,
                      opt: SgmOption): (v: seq<u8>)
    requires width > 0 && height > 0 && opt.DispRange() > 0
    requires |censusLeft| == width * height && |censusRight| == width * height
    ensures |v| == width * height * opt.DispRange()
  {
    var range := opt.DispRange();
    seq(width * height * range, t requires 0 <= t < width * height * range =>
      VolumeIndexSplit(width, height, range, t);
      PixelOfInImage(width, height, t / range);
      CostEntry(censusLeft, censusRight, width, height, CensusBits(opt.censusSize),
                (t / range) / width, (t / range) % width, opt.minDisparity + t % range))
  }

  /**
   * Entry (i*W + j)*D + (d - min_disparity) of the cost volume is the cost of
   * pixel (i, j) at disparity d.
   */
  lemma CostVolumeEntry(censusLeft: seq<nat>, censusRight: seq<nat>, width: int, height: int,
                        opt: SgmOption, i: int, j: int, d: int)
    requires width > 0 && height > 0 && opt.DispRange() > 0
    requires |censusLeft| == width * height && |censusRight| == width * height
    requires InImage(width, height, Pixel(i, j)) && opt.minDisparity <= d < opt.maxDisparity
    ensures var t := (i * width + j) * opt.DispRange() + (d - opt.minDisparity);
      && 0 <= t < width * height * opt.DispRange()
      && CostVolume(censusLeft, censusRight, width, height, opt)[t]
         == CostEntry(censusLeft, censusRight, width, height, CensusBits(opt.censusSize), i, j, d)
  {
    CostVolumeAt(censusLeft, censusRight, width, height, opt, i, j, d);
    VolumeIndex(width, height, opt.DispRange(), i, j, d - opt.minDisparity);
  }

  /**
   * Every (i, j, d) owns exactly the entry the source writes,
   * i*W*D + j*D + (d - min_disparity): 127 when j - d leaves the image,
   * the census distance to right pixel (i, j - d) otherwise, and never above 127.
   */
  lemma CostVolumeAt(censusLeft: seq<nat>, censusRight: seq<nat>, width: int, height: int,
                     opt: SgmOption, i: int, j: int, d: int)
    requires width > 0 && height > 0 && opt.DispRange() > 0
    requires |censusLeft| == width * height && |censusRight| == width * height
    requires InImage(width, height, Pixel(i, j)) && opt.minDisparity <= d < opt.maxDisparity
    ensures var t := i * width * opt.DispRange() + j * opt.DispRange() + (d - opt.minDisparity);
      && 0 <= t < width * height * opt.DispRange()
      && 0 <= i * width + j < width * height
      && var c := CostVolume(censusLeft, censusRight, width, height, opt)[t];
      && c <= OUT_OF_IMAGE_COST
      && (j - d < 0 || j - d >= width ==> c == OUT_OF_IMAGE_COST)
      && (0 <= j - d < width ==>
            0 <= i * width + j - d < width * height &&
            c == Hamming(censusLeft[i * width + j], censusRight[i * width + j - d],
                         CensusBits(opt.censusSize)))
  {
    var range := opt.DispRange();
    var k := d - opt.minDisparity;
    FlatInRange(width, height, Pixel(i, j));
    VolumeIndex(width, height, range, i, j, k);
    var p := i * width + j;
    var t := p * range + k;
    DivModUnique(p, width, i, j);
    EntryOfVolume(censusLeft, censusRight, width, height, opt, t);
    assert t / range == p && t % range == k;
    var c := CostVolume(censusLeft, censusRight, width, height, opt)[t];
    assert c == CostEntry(censusLeft, censusRight, width, height, CensusBits(opt.censusSize), i, j, d);
    if 0 <= j - d < width {
      FlatInRange(width, height, Pixel(i, j - d));
    }
  }

  /** Entry t of the cost volume, read back through the pixel and offset it encodes. */
  lemma EntryOfVolume(censusLeft: seq<nat>, censusRight: seq<nat>, width: int, height: int,
                      opt: SgmOption, t: int)
    requires width > 0 && height > 0 && opt.DispRange() > 0
    requires |censusLeft| == width * height && |censusRight| == width * height
    requires 0 <= t < width * height * opt.DispRange()
    ensures 0 <= t / opt.DispRange() < width * height
    ensures InImage(width, height, Pixel((t / opt.DispRange()) / width, (t / opt.DispRange()) % width))
    ensures CostVolume(censusLeft, censusRight, width, height, opt)[t]
         == CostEntry(censusLeft, censusRight, width, height, CensusBits(opt.censusSize),
                      (t / opt.DispRange()) / width, (t / opt.DispRange()) % width,
                      opt.minDisparity + t % opt.DispRange())
  {
    VolumeIndexSplit(width, height, opt.DispRange(), t);
    PixelOfInImage(width, height, t / opt.DispRange());
  }
}
