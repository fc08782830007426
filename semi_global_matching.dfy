// The SemiGlobalMatching class: the buffers it owns, the lifecycle guards of
// Initialize, Match and Release, and every stage as the loop the class runs
// over its buffers, each proved against a stage function.
module SemiGlobal {
  import opened SgmTypes
  import opened MatchingCost
  import opened DisparitySelection
  import opened ConsistencyCheck
  import opened HoleFilling

  /**
   * The sgm_util routines the class calls, whose bodies are not part of this
   * model, each given by the value it leaves at one index of its output:
   * the census transform (image, width, height, window, pixel), one of the
   * eight path aggregations (path 0..7, left image, width, height, options,
   * initial cost volume, volume index), speckle removal (map, width, height,
   * disparity tolerance, minimum area, pixel) and the median filter (map,
   * width, height, window, pixel).
   */
  datatype Externals = Externals(
    census: (seq<u8>, int, int, CensusSize, int) -> nat,
    aggregate: (int, seq<u8>, int, int, SgmOption, seq<u8>, int) -> u8,
    removeSpeckles: (seq<Disp>, int, int, int, int, int) -> Disp,
    median: (seq<Disp>, int, int, int, int) -> Disp)

  // ---- stage functions -------------------------------------------------------

  /** The census codes of an image. */
  function CensusMap(ext: Externals, img: seq<u8>, width: int, height: int, size: CensusSize)
    : (c: seq<nat>)
    requires width * height >= 0
    ensures |c| == width * height
  {
    seq<nat>(width * height, t => ext.census(img, width, height, size, t))
  }

  /** Path k's aggregated cost at volume index t. */
  function PathCost(ext: Externals, k: int, img: seq<u8>, width: int, height: int, opt: SgmOption,
                    costInit: seq<u8>, t: int): u8
  {
    ext.aggregate(k, img, width, height, opt, costInit, t)
  }

  /** The sum of the costs of paths 0 .. n - 1 at volume index t: at most n * 255. */
  function PathTotal(ext: Externals, img: seq<u8>, width: int, height: int, opt: SgmOption,
                     costInit: seq<u8>, t: int, n: nat): (s: nat)
    ensures s <= n * UINT8_MAX
  {
    if n == 0 then 0
    else PathTotal(ext, img, width, height, opt, costInit, t, n - 1)
         + PathCost(ext, n - 1, img, width, height, opt, costInit, t)
  }

  /**
   * cost_aggr_ after CostAggregation: the sum of paths 0..3 with 4 paths, of
   * paths 0..7 with 8, and the previous contents for any other path count.
   */
  function AggregatedCost(ext: Externals, img: seq<u8>, width: int, height: int, opt: SgmOption,
                          costInit: seq<u8>, previous: seq<u16>): (a: seq<u16>)
    requires |previous| == |costInit|
    ensures |a| == |costInit|
  {
    if opt.numPaths == 4 || opt.numPaths == 8 then
      seq<u16>(|costInit|, t => PathTotal(ext, img, width, height, opt, costInit, t, opt.numPaths))
    else previous
  }

  /**
   * The summation loop's two statements: cost_aggr_ = paths 1 + 2 + 3 + 4, then
   * += paths 5 + 6 + 7 + 8 with eight paths; each total fits in a uint16.
   */
  lemma {:induction false} AggregatedCostSum(ext: Externals, img: seq<u8>, width: int, height: int,
                                              opt: SgmOption, costInit: seq<u8>, t: int)
    ensures var P := (k: int) => PathCost(ext, k, img, width, height, opt, costInit, t);
      var four := PathTotal(ext, img, width, height, opt, costInit, t, 4);
      && four == P(0) + P(1) + P(2) + P(3) <= 4 * UINT8_MAX
      && PathTotal(ext, img, width, height, opt, costInit, t, 8) == four + P(4) + P(5) + P(6) + P(7)
      && four + P(4) + P(5) + P(6) + P(7) <= 8 * UINT8_MAX
  {
    var T := (n: nat) => PathTotal(ext, img, width, height, opt, costInit, t, n);
    assert T(1) == T(0) + PathCost(ext, 0, img, width, height, opt, costInit, t);
    assert T(2) == T(1) + PathCost(ext, 1, img, width, height, opt, costInit, t);
    assert T(3) == T(2) + PathCost(ext, 2, img, width, height, opt, costInit, t);
    assert T(4) == T(3) + PathCost(ext, 3, img, width, height, opt, costInit, t);
    assert T(5) == T(4) + PathCost(ext, 4, img, width, height, opt, costInit, t);
    assert T(6) == T(5) + PathCost(ext, 5, img, width, height, opt, costInit, t);
    assert T(7) == T(6) + PathCost(ext, 6, img, width, height, opt, costInit, t);
    assert T(8) == T(7) + PathCost(ext, 7, img, width, height, opt, costInit, t);
  }

  /** A pixel's D costs lie inside a W x H x D volume. */
  lemma PixelSlice(width: int, height: int, range: int, p: int)
    requires width > 0 && height > 0 && range > 0 && 0 <= p < width * height
    ensures (p + 1) * range <= width * height * range
  {
    MulMono(p + 1, width * height, range);
  }

  /** disp_left_ after ComputeDisparity. */
  function LeftDisparityMap(aggr: seq<u16>, width: int, height: int, opt: SgmOption): (m: seq<Disp>)
    requires width > 0 && height > 0 && opt.DispRange() > 0
    requires |aggr| == width * height * opt.DispRange()
    ensures |m| == width * height
  {
    seq(width * height, p requires 0 <= p < width * height =>
      PixelSlice(width, height, opt.DispRange(), p);
      DisparityOf(LeftCosts(aggr, opt.DispRange(), p), opt.minDisparity, opt.isCheckUnique,
                  opt.uniquenessRatio))
  }

  /** disp_right_ after ComputeDisparityRight. */
  function RightDisparityMap(aggr: seq<u16>, width: int, height: int, opt: SgmOption): (m: seq<Disp>)
    requires width > 0 && height > 0 && opt.DispRange() > 0
    requires |aggr| == width * height * opt.DispRange()
    ensures |m| == width * height
  {
    seq(width * height, p requires 0 <= p < width * height =>
      PixelOfInImage(width, height, p);
      DisparityOf(RightCosts(aggr, width, height, opt, p / width, p % width), opt.minDisparity,
                  opt.isCheckUnique, opt.uniquenessRatio))
  }

  /** The map after sgm_util::RemoveSpeckles with tolerance 1. */
  function SpeckleMap(ext: Externals, disp: seq<Disp>, width: int, height: int, minArea: int)
    : (m: seq<Disp>)
    ensures |m| == |disp|
  {
    seq(|disp|, t => ext.removeSpeckles(disp, width, height, 1, minArea, t))
  }

  /** The map after the 3 x 3 sgm_util::MedianFilter. */
  function MedianMap(ext: Externals, disp: seq<Disp>, width: int, height: int): (m: seq<Disp>)
    ensures |m| == |disp|
  {
    seq(|disp|, t => ext.median(disp, width, height, 3, t))
  }

  /** max_search_length = max(|max_disparity|, |min_disparity|). */
  function MaxSearchLength(opt: SgmOption): int
  {
    var a := if opt.maxDisparity < 0 then -opt.maxDisparity else opt.maxDisparity;
    var b := if opt.minDisparity < 0 then -opt.minDisparity else opt.minDisparity;
    if a > b then a else b
  }

  /** The left map and the two pixel lists once Match has run. */
  datatype MatchState = MatchState(disp: seq<Disp>, occlusions: seq<Pixel>, mismatches: seq<Pixel>)

  /**
   * What Match computes from the two images: census, cost, aggregation,
   * then the stages after it. The previous aggregated volume and pixel lists
   * matter when the path count or the left/right check leave them as they
   * were.
   */
  function MatchResult(ext: Externals, imgLeft: seq<u8>, imgRight: seq<u8>, width: int, height: int,
                       opt: SgmOption, prevAggr: seq<u16>, prevOcc: seq<Pixel>, prevMis: seq<Pixel>)
    : (r: MatchState)
    requires width > 0 && height > 0 && opt.DispRange() > 0
    requires |prevAggr| == width * height * opt.DispRange()
    requires AllInImage(prevOcc, width, height) && AllInImage(prevMis, width, height)
    ensures |r.disp| == width * height
  {
    RefineResult(ext, CostStagesResult(ext, imgLeft, imgRight, width, height, opt, prevAggr),
                 width, height, opt, prevOcc, prevMis)
  }

  /** The aggregated cost volume the census, cost and aggregation stages leave. */
  function CostStagesResult(ext: Externals, imgLeft: seq<u8>, imgRight: seq<u8>, width: int, height: int,
                            opt: SgmOption, prevAggr: seq<u16>): (aggr: seq<u16>)
    requires width > 0 && height > 0 && opt.DispRange() > 0
    requires |prevAggr| == width * height * opt.DispRange()
    ensures |aggr| == width * height * opt.DispRange()
  {
    var cl := CensusMap(ext, imgLeft, width, height, opt.censusSize);
    var cr := CensusMap(ext, imgRight, width, height, opt.censusSize);
    AggregatedCost(ext, imgLeft, width, height, opt, CostVolume(cl, cr, width, height, opt), prevAggr)
  }

  /**
   * The stages after aggregation: disparity, the optional left/right check,
   * speckle removal and hole filling, and the median filter.
   */
  function RefineResult(ext: Externals, aggr: seq<u16>, width: int, height: int, opt: SgmOption,
                        prevOcc: seq<Pixel>, prevMis: seq<Pixel>): (r: MatchState)
    requires width > 0 && height > 0 && opt.DispRange() > 0
    requires |aggr| == width * height * opt.DispRange()
    requires AllInImage(prevOcc, width, height) && AllInImage(prevMis, width, height)
    ensures |r.disp| == width * height
  {
    var left := LeftDisparityMap(aggr, width, height, opt);
    var checked :=
      if opt.isCheckLr then
        LRListsAscending(left, RightDisparityMap(aggr, width, height, opt), width, height, opt.lrcheckThres);
        LRFinal(left, RightDisparityMap(aggr, width, height, opt), width, height, opt.lrcheckThres)
      else LRState(left, prevOcc, prevMis);
    var despeckled := if opt.isRemoveSpeckles
      then SpeckleMap(ext, checked.disp, width, height, opt.minSpeckleArea) else checked.disp;
    var filled := if opt.isFillHoles
      then FillHoles(despeckled, width, height, checked.occlusions, checked.mismatches, MaxSearchLength(opt))
      else FillResult(despeckled, checked.mismatches);
    MatchState(MedianMap(ext, filled.disp, width, height), checked.occlusions, filled.mismatches)
  }

  /** (a + 1) * n distributes. */
  lemma NextRow(a: int, n: int)
    ensures (a + 1) * n == a * n + n
  {
  }

  // ---- the class ---------------------------------------------------------------

  class SemiGlobalMatching {
    var width: int
    var height: int
    var option: SgmOption
    var isInitialized: bool
    var imgLeft: seq<u8>
    var imgRight: seq<u8>
    var censusLeft: array<nat>
    var censusRight: array<nat>
    var costInit: array<u8>
    var costAggr: array<u16>
    /** cost_aggr_1_ .. cost_aggr_8_ as rows 0 .. 7. */
    var costAggrPaths: array2<u8>
    var dispLeft: array<Disp>
    var dispRight: array<Disp>
    var occlusions: seq<Pixel>
    var mismatches: seq<Pixel>

    /** The buffers Initialize allocates, sized for the current image and range. */
    ghost predicate Sized()
      reads this, costAggr
    {
      var size := width * height;
      && width > 0 && height > 0 && option.DispRange() > 0
      && censusLeft.Length == size && censusRight.Length == size
      && dispLeft.Length == size && dispRight.Length == size
      && costInit.Length == size * option.DispRange()
      && costAggr.Length == size * option.DispRange()
      && costAggrPaths.Length0 == 8 && costAggrPaths.Length1 == size * option.DispRange()
      && censusLeft != censusRight && dispLeft != dispRight
      && (forall t :: 0 <= t < costAggr.Length ==> costAggr[t] <= 8 * UINT8_MAX)
    }

    /** The pixel lists name pixels of the current image. */
    ghost predicate ListsInside()
      reads this
    {
      AllInImage(occlusions, width, height) && AllInImage(mismatches, width, height)
    }

    /** An initialised matcher has its buffers and lists in place. */
    ghost predicate Valid()
      reads this, costAggr
    {
      isInitialized ==> Sized() && ListsInside()
    }

    /** Everything but the buffer contents, the images and the pixel lists is kept. */
    twostate predicate BuffersKept()
      reads this
    {
      && width == old(width) && height == old(height) && option == old(option)
      && isInitialized == old(isInitialized)
      && censusLeft == old(censusLeft) && censusRight == old(censusRight)
      && costInit == old(costInit) && costAggr == old(costAggr)
      && costAggrPaths == old(costAggrPaths)
      && dispLeft == old(dispLeft) && dispRight == old(dispRight)
    }

    /** The size, the options, the flag and the pixel lists are kept. */
    twostate predicate SettingsKept()
      reads this
    {
      && width == old(width) && height == old(height) && option == old(option)
      && isInitialized == old(isInitialized)
      && occlusions == old(occlusions) && mismatches == old(mismatches)
    }

    /** Every buffer is empty. */
    predicate Released()
      reads this
    {
      && censusLeft.Length == 0 && censusRight.Length == 0 && costInit.Length == 0
      && costAggr.Length == 0 && costAggrPaths.Length1 == 0
      && dispLeft.Length == 0 && dispRight.Length == 0
    }

    /** A new matcher: no buffers, not initialised. */
    constructor()
      ensures !isInitialized && width == 0 && height == 0
      ensures occlusions == [] && mismatches == []
      ensures censusLeft.Length == 0 && censusRight.Length == 0 && costInit.Length == 0
      ensures costAggr.Length == 0 && dispLeft.Length == 0 && dispRight.Length == 0
      ensures Valid()
    {
      width, height := 0, 0;
      isInitialized := false;
      imgLeft, imgRight := [], [];
      censusLeft := new nat[0];
      censusRight := new nat[0];
      costInit := new u8[0];
      costAggr := new u16[0];
      costAggrPaths := new u8[0, 0];
      dispLeft := new Disp[0];
      dispRight := new Disp[0];
      occlusions, mismatches := [], [];
    }

    /**
     * Stores the size and options first, then fails on a zero width or height
     * before allocating anything; the census buffers are allocated before the
     * disparity range is checked, so a failure there has replaced them. Every
     * new buffer is zero-filled. A failure leaves the flag as it was, and the
     * pixel lists are never cleared.
     */
    method Initialize(w: int, h: int, opt: SgmOption) returns (ok: bool)
      requires w >= 0 && h >= 0
      modifies this
      ensures width == w && height == h && option == opt
      ensures ok <==> w != 0 && h != 0 && opt.DispRange() > 0
      ensures ok ==> isInitialized && Sized() && (Valid() <==> ListsInside())
      ensures ok ==> forall t :: 0 <= t < costAggr.Length ==> costAggr[t] == 0
      ensures !ok ==> isInitialized == old(isInitialized)
      ensures w != 0 && h != 0 ==>
        && fresh(censusLeft) && fresh(censusRight)
        && censusLeft.Length == w * h && censusRight.Length == w * h
      ensures w == 0 || h == 0 ==> censusLeft == old(censusLeft) && censusRight == old(censusRight)
      ensures !ok ==> costInit == old(costInit) && costAggr == old(costAggr) && costAggrPaths == old(costAggrPaths)
      ensures !ok ==> dispLeft == old(dispLeft) && dispRight == old(dispRight)
      ensures occlusions == old(occlusions) && mismatches == old(mismatches)
      ensures imgLeft == old(imgLeft) && imgRight == old(imgRight)
    {
      width := w;
      height := h;
      option := opt;
      if w == 0 || h == 0 {
        return false;
      }
      var imgSize := w * h;
      AllocateCensus(imgSize);
      ok := AllocateVolumes();
    }

    /**
     * The part of Initialize after the census buffers: the range check, then
     * the volumes and maps.
     */
    method AllocateVolumes() returns (ok: bool)
      requires width > 0 && height > 0
      requires censusLeft.Length == width * height && censusRight.Length == width * height
      requires censusLeft != censusRight
      modifies this
      ensures width == old(width) && height == old(height) && option == old(option)
      ensures censusLeft == old(censusLeft) && censusRight == old(censusRight)
      ensures ok <==> option.DispRange() > 0
      ensures ok ==> isInitialized && Sized()
      ensures ok ==> forall t :: 0 <= t < costAggr.Length ==> costAggr[t] == 0
      ensures !ok ==> isInitialized == old(isInitialized)
      ensures !ok ==> costInit == old(costInit) && costAggr == old(costAggr) && costAggrPaths == old(costAggrPaths)
      ensures !ok ==> dispLeft == old(dispLeft) && dispRight == old(dispRight)
      ensures occlusions == old(occlusions) && mismatches == old(mismatches)
      ensures imgLeft == old(imgLeft) && imgRight == old(imgRight)
    {
      var range := option.maxDisparity - option.minDisparity;
      if range <= 0 {
        return false;
      }
      var size := width * height * range;
      AllocateBuffers(width * height, size);
      isInitialized := true;
      ok := true;
    }

    /** New zero-filled census buffers of n pixels each. */
    method AllocateCensus(n: nat)
      modifies this`censusLeft, this`censusRight
      ensures fresh(censusLeft) && fresh(censusRight) && censusLeft != censusRight
      ensures censusLeft.Length == n && censusRight.Length == n
    {
      censusLeft := NewFilled(n, 0);
      censusRight := NewFilled(n, 0);
    }

    /**
     * New zero-filled cost volumes of `size` entries and disparity maps of n
     * pixels (the maps are filled with 0.0).
     */
    method AllocateBuffers(n: nat, size: nat)
      modifies this`costInit, this`costAggr, this`costAggrPaths, this`dispLeft, this`dispRight
      ensures fresh(dispLeft) && fresh(dispRight) && dispLeft != dispRight
      ensures costInit.Length == size && costAggr.Length == size
      ensures costAggrPaths.Length0 == 8 && costAggrPaths.Length1 == size
      ensures dispLeft.Length == n && dispRight.Length == n
      ensures forall t :: 0 <= t < size ==> costAggr[t] == 0
    {
      costInit, costAggr, costAggrPaths, dispLeft, dispRight := NewVolumes(n, size);
    }

    /** The cost volumes and disparity maps for an image of n pixels and a volume of `size` entries. */
    static method NewVolumes(n: nat, size: nat)
      returns (ci: array<u8>, ca: array<u16>, cp: array2<u8>, dl: array<Disp>, dr: array<Disp>)
      ensures fresh(ci) && fresh(ca) && fresh(cp) && fresh(dl) && fresh(dr) && dl != dr
      ensures ci.Length == size && ca.Length == size && cp.Length0 == 8 && cp.Length1 == size
      ensures dl.Length == n && dr.Length == n
      ensures forall t :: 0 <= t < size ==> ca[t] == 0
      ensures forall t :: 0 <= t < n ==> dl[t] == Val(0.0)
    {
      ci := NewFilled(size, 0);
      ca := NewFilled(size, 0);
      cp := new u8[8, size]((_, _) => 0);
      dl := NewFilled(n, Val(0.0));
      dr := NewFilled(n, Val(0.0));
    }

    /** A new buffer of n copies of v. */
    static method NewFilled<T>(n: nat, v: T) returns (a: array<T>)
      ensures fresh(a) && a.Length == n && forall t :: 0 <= t < n ==> a[t] == v
    {
      a := new T[n](_ => v);
    }

    /**
     * Runs the pipeline when the matcher is initialised and both images are
     * present, and then returns the left map; otherwise it returns false and
     * changes nothing.
     */
    method Match(left: Option<seq<u8>>, right: Option<seq<u8>>, ext: Externals)
      returns (ok: bool, output: seq<Disp>)
      requires Valid()
      modifies this, censusLeft, censusRight, costInit, costAggr, costAggrPaths, dispLeft, dispRight
      ensures Valid() && BuffersKept()
      ensures ok <==> old(isInitialized) && left.Some? && right.Some?
      ensures !ok ==>
        && output == [] && unchanged(this) && unchanged(censusLeft, censusRight)
        && unchanged(costInit, costAggr, costAggrPaths, dispLeft, dispRight)
      ensures ok ==>
        && imgLeft == left.value && imgRight == right.value
        && output == dispLeft[..]
        && MatchState(dispLeft[..], occlusions, mismatches)
           == MatchResult(ext, left.value, right.value, width, height, option,
                          old(costAggr[..]), old(occlusions), old(mismatches))
    {
      if !isInitialized {
        return false, [];
      }
      if left.None? || right.None? {
        return false, [];
      }
      imgLeft := left.value;
      imgRight := right.value;
      CostStages(ext);
      RefineStages(ext);
      output := dispLeft[..];
      ok := true;
    }

    /** Census, cost and aggregation. */
    method CostStages(ext: Externals)
      requires Valid() && isInitialized
      modifies censusLeft, censusRight, costInit, costAggr, costAggrPaths
      ensures Valid()
      ensures costAggr[..] == CostStagesResult(ext, imgLeft, imgRight, width, height, option, old(costAggr[..]))
    {
      CensusTransform(ext);
      ComputeCost();
      CostAggregation(ext);
    }

    /**
     * Disparity, then the optional left/right check, speckle removal and hole
     * filling, then the median filter.
     */
    method RefineStages(ext: Externals)
      requires Valid() && isInitialized
      modifies this, dispLeft, dispRight
      ensures Valid() && BuffersKept()
      ensures imgLeft == old(imgLeft) && imgRight == old(imgRight)
      ensures MatchState(dispLeft[..], occlusions, mismatches)
              == RefineResult(ext, costAggr[..], width, height, option, old(occlusions), old(mismatches))
    {
      ComputeDisparity();
      if option.isCheckLr {
        ComputeDisparityRight();
        LRCheck();
      }
      if option.isRemoveSpeckles {
        RemoveSpeckles(ext);
      }
      if option.isFillHoles {
        FillHolesInDispMap();
      }
      MedianFilter(ext);
    }

    /** Census codes of both images. */
    method CensusTransform(ext: Externals)
      requires Valid() && isInitialized
      modifies censusLeft, censusRight
      ensures Valid()
      ensures censusLeft[..] == CensusMap(ext, imgLeft, width, height, option.censusSize)
      ensures censusRight[..] == CensusMap(ext, imgRight, width, height, option.censusSize)
    {
      for t := 0 to width * height
        invariant forall u :: 0 <= u < t ==>
          censusLeft[u] == ext.census(imgLeft, width, height, option.censusSize, u)
        invariant forall u :: 0 <= u < t ==>
          censusRight[u] == ext.census(imgRight, width, height, option.censusSize, u)
      {
        censusLeft[t] := ext.census(imgLeft, width, height, option.censusSize, t);
        censusRight[t] := ext.census(imgRight, width, height, option.censusSize, t);
      }
    }

    /** One entry per (i, j, d) of the initial cost volume, in the source's loop order. */
    method ComputeCost()
      requires Valid() && isInitialized
      modifies costInit
      ensures Valid()
      ensures costInit[..] == CostVolume(censusLeft[..], censusRight[..], width, height, option)
    {
      for i := 0 to height
        invariant (i * width) * option.DispRange() <= costInit.Length
        invariant forall t :: 0 <= t < (i * width) * option.DispRange() ==>
          costInit[t] == CostVolume(censusLeft[..], censusRight[..], width, height, option)[t]
      {
        ComputeCostRow(i);
      }
      assert (height * width) * option.DispRange() == costInit.Length;
    }

    /** One row of ComputeCost: the entries of pixels (i, 0) .. (i, W - 1). */
    method ComputeCostRow(i: int)
      requires Valid() && isInitialized && 0 <= i < height
      requires forall t :: 0 <= t < (i * width) * option.DispRange() ==>
        costInit[t] == CostVolume(censusLeft[..], censusRight[..], width, height, option)[t]
      modifies costInit
      ensures ((i + 1) * width) * option.DispRange() <= costInit.Length
      ensures forall t :: 0 <= t < ((i + 1) * width) * option.DispRange() ==>
        costInit[t] == CostVolume(censusLeft[..], censusRight[..], width, height, option)[t]
    {
      var range := option.maxDisparity - option.minDisparity;
      ghost var v := CostVolume(censusLeft[..], censusRight[..], width, height, option);
      var base := i * width * range;
      for j := 0 to width
        invariant base == (i * width + j) * range && base <= |v|
        invariant forall t :: 0 <= t < base ==> costInit[t] == v[t]
      {
        NextRow(i * width + j, range);
        FlatInRange(width, height, Pixel(i, j));
        MulMono(i * width + j + 1, width * height, range);
        ComputeCostPixel(i, j, base);
        base := base + range;
      }
      NextRow(i, width);
    }

    /**
     * The innermost loop of ComputeCost: the D entries of pixel (i, j), which
     * start at base = i*W*D + j*D.
     */
    method ComputeCostPixel(i: int, j: int, base: int)
      requires Valid() && isInitialized && InImage(width, height, Pixel(i, j))
      requires base == (i * width + j) * option.DispRange()
      requires 0 <= base && base + option.DispRange() <= costInit.Length
      modifies costInit
      ensures forall t :: 0 <= t < costInit.Length && !(base <= t < base + option.DispRange()) ==>
                costInit[t] == old(costInit[t])
      ensures forall t :: base <= t < base + option.DispRange() ==>
                costInit[t] == CostVolume(censusLeft[..], censusRight[..], width, height, option)[t]
    {
      ghost var cl, cr := censusLeft[..], censusRight[..];
      ghost var v := CostVolume(cl, cr, width, height, option);
      for d := option.minDisparity to option.maxDisparity
        invariant censusLeft[..] == cl && censusRight[..] == cr
        invariant forall t :: 0 <= t < costInit.Length && !(base <= t < base + (d - option.minDisparity)) ==>
          costInit[t] == old(costInit[t])
        invariant forall t :: base <= t < base + (d - option.minDisparity) ==> costInit[t] == v[t]
      {
        ComputeCostEntry(i, j, d, base);
      }
    }

    /**
     * The body of ComputeCost's innermost loop: the cost of pixel (i, j) at
     * disparity d goes to entry i*W*D + j*D + (d - min_disparity), `base`
     * being the first two terms, (i*W + j)*D.
     */
    method ComputeCostEntry(i: int, j: int, d: int, base: int)
      requires Valid() && isInitialized && InImage(width, height, Pixel(i, j))
      requires option.minDisparity <= d < option.maxDisparity
      requires base == (i * width + j) * option.DispRange()
      requires 0 <= base && base + option.DispRange() <= costInit.Length
      modifies costInit
      ensures var t := base + (d - option.minDisparity);
        && costInit[t] == CostVolume(old(censusLeft[..]), old(censusRight[..]), width, height, option)[t]
        && forall u :: 0 <= u < costInit.Length && u != t ==> costInit[u] == old(costInit[u])
    {
      var idx := base + (d - option.minDisparity);
      ghost var cl, cr := censusLeft[..], censusRight[..];
      var c := CostEntry(censusLeft[..], censusRight[..], width, height, CensusBits(option.censusSize), i, j, d);
      CostVolumeEntry(cl, cr, width, height, option, i, j, d);
      ghost var v := CostVolume(cl, cr, width, height, option);
      assert v[idx] == c;
      costInit[idx] := c;
    }

    /** Rows 0 .. n - 1 of the path volumes hold those paths' costs. */
    ghost predicate PathsHold(ext: Externals, costs: seq<u8>, n: int)
      reads this, costAggrPaths
      requires 0 <= n <= costAggrPaths.Length0
    {
      forall k, t :: 0 <= k < n && 0 <= t < costAggrPaths.Length1 ==>
        costAggrPaths[k, t] == PathCost(ext, k, imgLeft, width, height, option, costs, t)
    }

    /** sgm_util's aggregation along path k fills row k of the path volumes. */
    method AggregatePath(ext: Externals, k: int, costs: seq<u8>)
      requires Valid() && isInitialized && 0 <= k < 8
      requires PathsHold(ext, costs, k)
      modifies costAggrPaths
      ensures PathsHold(ext, costs, k + 1)
      ensures forall k', t :: 0 <= k' < 8 && k' != k && 0 <= t < costAggrPaths.Length1 ==>
        costAggrPaths[k', t] == old(costAggrPaths[k', t])
    {
      for t := 0 to costAggrPaths.Length1
        invariant forall u :: 0 <= u < t ==>
          costAggrPaths[k, u] == PathCost(ext, k, imgLeft, width, height, option, costs, u)
        invariant forall k', u :: 0 <= k' < 8 && k' != k && 0 <= u < costAggrPaths.Length1 ==>
          costAggrPaths[k', u] == old(costAggrPaths[k', u])
      {
        costAggrPaths[k, t] := ext.aggregate(k, imgLeft, width, height, option, costs, t);
      }
    }

    /**
     * Paths 0..3 run for 4 or 8 paths, paths 4..7 for 8 only; the summation
     * loop then writes cost_aggr_ only for those two path counts.
     */
    method CostAggregation(ext: Externals)
      requires Valid() && isInitialized
      modifies costAggrPaths, costAggr
      ensures Valid()
      ensures costAggr[..] == AggregatedCost(ext, imgLeft, width, height, option, costInit[..],
                                             old(costAggr[..]))
    {
      var costs := costInit[..];
      if option.numPaths == 4 || option.numPaths == 8 {
        AggregatePath(ext, 0, costs);
        AggregatePath(ext, 1, costs);
        AggregatePath(ext, 2, costs);
        AggregatePath(ext, 3, costs);
      }
      if option.numPaths == 8 {
        AggregatePath(ext, 4, costs);
        AggregatePath(ext, 5, costs);
        AggregatePath(ext, 6, costs);
        AggregatePath(ext, 7, costs);
      }
      SumPaths(ext, costs);
    }

    /** CostAggregation's summation loop over the W x H x D volume. */
    method SumPaths(ext: Externals, costs: seq<u8>)
      requires Valid() && isInitialized && |costs| == costAggr.Length
      requires option.numPaths == 4 ==> PathsHold(ext, costs, 4)
      requires option.numPaths == 8 ==> PathsHold(ext, costs, 8)
      modifies costAggr
      ensures Valid()
      ensures costAggr[..] == AggregatedCost(ext, imgLeft, width, height, option, costs,
                                             old(costAggr[..]))
    {
      var size := width * height * (option.maxDisparity - option.minDisparity);
      ghost var target := AggregatedCost(ext, imgLeft, width, height, option, costs, old(costAggr[..]));
      for i := 0 to size
        invariant forall t :: 0 <= t < i ==> costAggr[t] == target[t]
        invariant forall t :: i <= t < size ==> costAggr[t] == old(costAggr[t])
      {
        AggregatedCostSum(ext, imgLeft, width, height, option, costs, i);
        if option.numPaths == 4 || option.numPaths == 8 {
          costAggr[i] := costAggrPaths[0, i] + costAggrPaths[1, i] + costAggrPaths[2, i]
                         + costAggrPaths[3, i];
        }
        if option.numPaths == 8 {
          costAggr[i] := costAggr[i] + costAggrPaths[4, i] + costAggrPaths[5, i]
                         + costAggrPaths[6, i] + costAggrPaths[7, i];
        }
      }
      assert costAggr[..] == target;
    }

    /** Winner-take-all over each pixel's own D costs. */
    method ComputeDisparity()
      requires Valid() && isInitialized
      modifies dispLeft
      ensures Valid()
      ensures dispLeft[..] == LeftDisparityMap(costAggr[..], width, height, option)
    {
      ghost var m := LeftDisparityMap(costAggr[..], width, height, option);
      for i := 0 to height
        invariant i * width <= width * height
        invariant forall p :: 0 <= p < i * width ==> dispLeft[p] == m[p]
      {
        ComputeDisparityRow(i);
      }
      assert height * width == width * height;
    }

    /** Row i, given the rows above it. */
    method ComputeDisparityRow(i: int)
      requires Valid() && isInitialized && 0 <= i < height
      requires forall p :: 0 <= p < i * width ==> dispLeft[p] == LeftDisparityMap(costAggr[..], width, height, option)[p]
      modifies dispLeft
      ensures Valid()
      ensures (i + 1) * width <= width * height
      ensures forall p :: 0 <= p < (i + 1) * width ==> dispLeft[p] == LeftDisparityMap(costAggr[..], width, height, option)[p]
    {
      ghost var m := LeftDisparityMap(costAggr[..], width, height, option);
      NextRow(i, width);
      MulMono(i + 1, height, width);
      var pos := i * width;
      for j := 0 to width
        invariant pos == i * width + j && pos <= width * height
        invariant forall p :: 0 <= p < pos ==> dispLeft[p] == m[p]
      {
        ComputeDisparityPixel(i, j, pos);
        pos := pos + 1;
      }
    }

    /** One pixel of ComputeDisparity. */
    method ComputeDisparityPixel(i: int, j: int, p: int)
      requires Valid() && isInitialized && InImage(width, height, Pixel(i, j))
      requires p == i * width + j && p < width * height
      modifies dispLeft
      ensures dispLeft[p] == LeftDisparityMap(costAggr[..], width, height, option)[p]
      ensures forall q :: 0 <= q < dispLeft.Length && q != p ==> dispLeft[q] == old(dispLeft[q])
    {
      var disp := LeftPixelDisparity(p);
      dispLeft[p] := disp;
    }

    /** The winner-take-all result of pixel p, read from its own D costs in place. */
    method LeftPixelDisparity(p: int) returns (disp: Disp)
      requires Valid() && isInitialized && 0 <= p < width * height
      ensures disp == LeftDisparityMap(costAggr[..], width, height, option)[p]
    {
      var range := option.maxDisparity - option.minDisparity;
      PixelSlice(width, height, range, p);
      NextRow(p, range);
      var costs := costAggr[p * range .. p * range + range];
      assert costs == LeftCosts(costAggr[..], range, p);
      disp := PixelDisparity(costs, option.minDisparity, option.maxDisparity,
                             option.isCheckUnique, option.uniquenessRatio);
    }

    /** Winner-take-all for the right view, each cost read from left column j + d. */
    method ComputeDisparityRight()
      requires Valid() && isInitialized
      modifies dispRight
      ensures Valid()
      ensures dispRight[..] == RightDisparityMap(costAggr[..], width, height, option)
    {
      ghost var m := RightDisparityMap(costAggr[..], width, height, option);
      for i := 0 to height
        invariant i * width <= width * height
        invariant forall p :: 0 <= p < i * width ==> dispRight[p] == m[p]
      {
        ComputeDisparityRightRow(i);
      }
      assert height * width == width * height;
    }

    /** Row i, given the rows above it. */
    method ComputeDisparityRightRow(i: int)
      requires Valid() && isInitialized && 0 <= i < height
      requires forall p :: 0 <= p < i * width ==> dispRight[p] == RightDisparityMap(costAggr[..], width, height, option)[p]
      modifies dispRight
      ensures Valid()
      ensures (i + 1) * width <= width * height
      ensures forall p :: 0 <= p < (i + 1) * width ==> dispRight[p] == RightDisparityMap(costAggr[..], width, height, option)[p]
    {
      ghost var m := RightDisparityMap(costAggr[..], width, height, option);
      NextRow(i, width);
      MulMono(i + 1, height, width);
      var pos := i * width;
      for j := 0 to width
        invariant pos == i * width + j && pos <= width * height
        invariant forall p :: 0 <= p < pos ==> dispRight[p] == m[p]
      {
        ComputeDisparityRightPixel(i, j, pos);
        pos := pos + 1;
      }
    }

    /** One pixel of ComputeDisparityRight. */
    method ComputeDisparityRightPixel(i: int, j: int, p: int)
      requires Valid() && isInitialized && InImage(width, height, Pixel(i, j))
      requires p == i * width + j && p < width * height
      modifies dispRight
      ensures dispRight[p] == RightDisparityMap(costAggr[..], width, height, option)[p]
      ensures forall q :: 0 <= q < dispRight.Length && q != p ==> dispRight[q] == old(dispRight[q])
    {
      FlatInRange(width, height, Pixel(i, j));
      assert p / width == i && p % width == j;
      var costs := RightCosts(costAggr[..], width, height, option, i, j);
      var disp := PixelDisparity(costs, option.minDisparity, option.maxDisparity,
                                 option.isCheckUnique, option.uniquenessRatio);
      dispRight[p] := disp;
    }

    /**
     * Clears both lists, then visits the pixels once each in row-major order,
     * reading the left map as the earlier iterations have left it.
     */
    method LRCheck()
      requires Valid() && isInitialized
      modifies this, dispLeft
      ensures Valid() && BuffersKept()
      ensures imgLeft == old(imgLeft) && imgRight == old(imgRight)
      ensures LRState(dispLeft[..], occlusions, mismatches)
              == LRFinal(old(dispLeft[..]), dispRight[..], width, height, option.lrcheckThres)
    {
      ghost var left0 := dispLeft[..];
      var threshold := option.lrcheckThres;
      occlusions := [];
      mismatches := [];
      ghost var pos := 0;
      for i := 0 to height
        invariant pos == i * width && pos <= width * height
        invariant Valid() && BuffersKept() && imgLeft == old(imgLeft) && imgRight == old(imgRight)
        invariant LRState(dispLeft[..], occlusions, mismatches)
                  == LRRun(left0, dispRight[..], width, height, threshold, pos)
      {
        for j := 0 to width
          invariant pos == i * width + j && pos <= width * height
          invariant Valid() && BuffersKept() && imgLeft == old(imgLeft) && imgRight == old(imgRight)
          invariant LRState(dispLeft[..], occlusions, mismatches)
                    == LRRun(left0, dispRight[..], width, height, threshold, pos)
        {
          LRCheckPixel(i, j, threshold);
          pos := pos + 1;
        }
        NextRow(i, width);
      }
      assert height * width == width * height;
      LRListsAscending(left0, dispRight[..], width, height, threshold);
    }

    /** LRCheck's loop body for pixel (i, j): one step of the left-right fold. */
    method LRCheckPixel(i: int, j: int, threshold: real)
      requires Valid() && isInitialized && InImage(width, height, Pixel(i, j))
      modifies this, dispLeft
      ensures Valid() && BuffersKept()
      ensures imgLeft == old(imgLeft) && imgRight == old(imgRight)
      ensures 0 <= i * width + j < width * height
      ensures LRState(dispLeft[..], occlusions, mismatches)
              == LRStep(old(LRState(dispLeft[..], occlusions, mismatches)), dispRight[..],
                        width, height, threshold, i * width + j)
    {
      ghost var before := LRState(dispLeft[..], occlusions, mismatches);
      var verdict := PixelVerdict(i, j, threshold);
      var t := i * width + j;
      ghost var after := LRStep(before, dispRight[..], width, height, threshold, t);
      if verdict == Occlusion {
        assert after == LRState(before.disp[t := Invalid], before.occlusions + [Pixel(i, j)], before.mismatches);
        occlusions := occlusions + [Pixel(i, j)];
        dispLeft[t] := Invalid;
      } else if verdict == Mismatch {
        assert after == LRState(before.disp[t := Invalid], before.occlusions, before.mismatches + [Pixel(i, j)]);
        mismatches := mismatches + [Pixel(i, j)];
        dispLeft[t] := Invalid;
      }
    }

    /**
     * The tests of LRCheck's loop body for pixel (i, j): an Invalid pixel, a
     * right column outside the image, or a right disparity beyond the
     * threshold rejects it, and a rejected pixel whose column col_rl is inside
     * (0, width) with a larger left disparity there is an occlusion.
     */
    method PixelVerdict(i: int, j: int, threshold: real) returns (verdict: Verdict)
      requires Valid() && isInitialized && InImage(width, height, Pixel(i, j))
      ensures 0 <= i * width + j < width * height
      ensures PixelOf(width, i * width + j) == Pixel(i, j)
      ensures verdict == LRVerdict(dispLeft[..], dispRight[..], width, height, threshold, i * width + j)
    {
      FlatInRange(width, height, Pixel(i, j));
      var t := i * width + j;
      DivModUnique(t, width, i, j);
      var disp := dispLeft[t];
      if disp == Invalid {
        return Mismatch;
      }
      var colRight := Trunc(j as real - disp.r + 0.5);
      if !(0 <= colRight < width) {
        return Mismatch;
      }
      SameRow(width, height, t, colRight);
      var dispR := dispRight[i * width + colRight];
      if dispR.Val? && Abs(disp.r - dispR.r) <= threshold {
        return Keep;
      }
      if dispR.Invalid? {
        return Mismatch;
      }
      var colRl := Trunc(colRight as real + dispR.r + 0.5);
      if 0 < colRl < width {
        SameRow(width, height, t, colRl);
        var dispL := dispLeft[i * width + colRl];
        if Exceeds(dispL, disp.r) {
          return Occlusion;
        }
      }
      return Mismatch;
    }

    /** sgm_util::RemoveSpeckles on the left map. */
    method RemoveSpeckles(ext: Externals)
      requires Valid() && isInitialized
      modifies dispLeft
      ensures Valid()
      ensures dispLeft[..] == SpeckleMap(ext, old(dispLeft[..]), width, height, option.minSpeckleArea)
    {
      var before := dispLeft[..];
      for t := 0 to dispLeft.Length
        invariant forall u :: 0 <= u < t ==>
          dispLeft[u] == ext.removeSpeckles(before, width, height, 1, option.minSpeckleArea, u)
      {
        dispLeft[t] := ext.removeSpeckles(before, width, height, 1, option.minSpeckleArea, t);
      }
    }

    /** sgm_util::MedianFilter on the left map, in place. */
    method MedianFilter(ext: Externals)
      requires Valid() && isInitialized
      modifies dispLeft
      ensures Valid()
      ensures dispLeft[..] == MedianMap(ext, old(dispLeft[..]), width, height)
    {
      var before := dispLeft[..];
      for t := 0 to dispLeft.Length
        invariant forall u :: 0 <= u < t ==> dispLeft[u] == ext.median(before, width, height, 3, u)
      {
        dispLeft[t] := ext.median(before, width, height, 3, t);
      }
    }

    /** disp_collects for pixel (y, x): one pass of each ray in table order. */
    method CollectCandidates(y: int, x: int, table: seq<Dir>, maxLen: int) returns (c: seq<real>)
      requires width > 0 && dispLeft.Length == width * height
      ensures c == Candidates(dispLeft[..], width, height, y, x, table, maxLen)
    {
      c := [];
      for s := 0 to |table|
        invariant c == Candidates(dispLeft[..], width, height, y, x, table[..s], maxLen)
      {
        assert table[..s + 1][..s] == table[..s];
        var found := ScanRay(y, x, table[s], maxLen);
        if found.Some? {
          c := c + [found.value];
        }
      }
      assert table[..|table|] == table;
    }

    /**
     * The inner search loop of one ray: steps m = 1, 2, .. below the search
     * length, stopping at the image border or at the first valid disparity.
     */
    method ScanRay(y: int, x: int, dir: Dir, maxLen: int) returns (found: Option<real>)
      requires width > 0 && dispLeft.Length == width * height
      ensures found == RayFrom(dispLeft[..], width, height, y, x, dir, 1, maxLen)
    {
      ghost var d := dispLeft[..];
      var m := 1;
      while m < maxLen
        invariant 1 <= m
        invariant RayFrom(d, width, height, y, x, dir, 1, maxLen)
                  == RayFrom(d, width, height, y, x, dir, m, maxLen)
        decreases maxLen - m
      {
        var p := Along(dir, y, x, m);
        if p.row < 0 || p.row >= height || p.col < 0 || p.col >= width {
          return None;
        }
        FlatInRange(width, height, p);
        var disp := dispLeft[p.row * width + p.col];
        if disp != Invalid {
          return Some(disp.r);
        }
        assert d[Flat(width, p)] == Invalid;
        m := m + 1;
      }
      return None;
    }

    /** inv_pixels: the Invalid pixels of the left map in row-major order. */
    method InvalidScan() returns (inv: seq<Pixel>)
      requires Valid() && isInitialized
      ensures inv == InvalidPixels(dispLeft[..], width, height)
    {
      inv := [];
      ghost var pos := 0;
      for i := 0 to height
        invariant pos == i * width && pos <= width * height
        invariant inv == InvalidPrefix(dispLeft[..], width, height, pos)
      {
        for j := 0 to width
          invariant pos == i * width + j && pos <= width * height
          invariant inv == InvalidPrefix(dispLeft[..], width, height, pos)
        {
          FlatInRange(width, height, Pixel(i, j));
          if dispLeft[i * width + j] == Invalid {
            inv := inv + [Pixel(i, j)];
          }
          pos := pos + 1;
        }
        NextRow(i, width);
      }
      assert height * width == width * height;
    }

    /**
     * The fill values of one pass, each computed from the map as it stands
     * before the pass. The table switches to angle2 at the first target in row
     * height / 2 and stays switched; 0.0 is kept where no candidate is found.
     */
    method ComputeFills(targets: seq<Pixel>, pass: int, maxLen: int, useAngle2: bool)
      returns (fills: array<real>, useAngle2': bool)
      requires Valid() && isInitialized && AllInImage(targets, width, height)
      ensures fresh(fills)
      ensures fills[..] == Fills(dispLeft[..], width, height, targets, pass, maxLen)
    {
      ghost var f := Fills(dispLeft[..], width, height, targets, pass, maxLen);
      fills := new real[|targets|](_ => 0.0);
      useAngle2' := useAngle2;
      for n := 0 to |targets|
        invariant fills[..n] == f[..n]
      {
        var y := targets[n].row;
        if y == height / 2 {
          useAngle2' := true;
        }
        var v := TargetFill(targets[n], pass, maxLen, useAngle2');
        assert v == f[n];
        fills[n] := v;
        assert fills[..n + 1] == fills[..n] + [v];
      }
      assert fills[..] == fills[..|targets|];
    }

    /**
     * The fill value of one target from the rays of `table`: the candidate of
     * the pass's rank, or the 0.0 the buffer was initialised with when no ray
     * meets a valid disparity.
     */
    method TargetFill(p: Pixel, pass: int, maxLen: int, useAngle2: bool) returns (v: real)
      requires width > 0 && dispLeft.Length == width * height
      ensures v == FillValue(dispLeft[..], width, height, p, pass, maxLen)
    {
      var c := CollectCandidates(p.row, p.col, if useAngle2 then ANGLE2 else ANGLE1, maxLen);
      FillValueEitherTable(dispLeft[..], width, height, p, pass, maxLen, useAngle2);
      if |c| == 0 {
        return 0.0;
      }
      var sorted := Sort(c);
      assert |sorted| == |multiset(sorted)| == |multiset(c)| == |c|;
      v := sorted[SelectIndex(|sorted|, pass)];
    }

    /** The batched write of one pass: target n receives fill value n. */
    method WriteFills(targets: seq<Pixel>, fills: array<real>)
      requires Valid() && isInitialized && AllInImage(targets, width, height)
      requires fills.Length == |targets|
      modifies dispLeft
      ensures Valid()
      ensures dispLeft[..] == WriteAll(old(dispLeft[..]), width, height, targets, fills[..])
    {
      ghost var before := dispLeft[..];
      for n := 0 to |targets|
        invariant dispLeft[..] == WriteAll(before, width, height, targets[..n], fills[..n])
      {
        FlatInRange(width, height, targets[n]);
        assert targets[..n + 1][..n] == targets[..n] && fills[..n + 1][..n] == fills[..n];
        dispLeft[targets[n].row * width + targets[n].col] := Val(fills[n]);
      }
      assert targets[..|targets|] == targets && fills[..|targets|] == fills[..];
    }

    /**
     * Three passes: occlusions, then mismatches, then every pixel still
     * Invalid (replacing the mismatch list), each skipped when its list is
     * empty.
     */
    method FillHolesInDispMap()
      requires Valid() && isInitialized
      modifies this, dispLeft
      ensures Valid() && BuffersKept()
      ensures imgLeft == old(imgLeft) && imgRight == old(imgRight)
      ensures occlusions == old(occlusions)
      ensures FillResult(dispLeft[..], mismatches)
              == FillHoles(old(dispLeft[..]), width, height, occlusions, old(mismatches),
                           MaxSearchLength(option))
    {
      var useAngle2 := false;
      var maxLen := MaxSearchLength(option);
      ghost var d0, mis0 := dispLeft[..], mismatches;
      for k := 0 to 3
        invariant Valid() && BuffersKept() && occlusions == old(occlusions)
        invariant imgLeft == old(imgLeft) && imgRight == old(imgRight)
        invariant FillResult(dispLeft[..], mismatches)
                  == FillAfter(d0, width, height, occlusions, mis0, maxLen, k)
      {
        useAngle2 := FillHolesPass(k, maxLen, useAngle2);
      }
    }

    /** Pass k of FillHolesInDispMap, with the table choice carried between passes. */
    method FillHolesPass(k: int, maxLen: int, useAngle2: bool) returns (useAngle2': bool)
      requires Valid() && isInitialized && 0 <= k < 3
      modifies this, dispLeft
      ensures Valid() && BuffersKept() && occlusions == old(occlusions)
      ensures imgLeft == old(imgLeft) && imgRight == old(imgRight)
      ensures FillResult(dispLeft[..], mismatches)
              == FillStep(old(FillResult(dispLeft[..], mismatches)), width, height, occlusions, k, maxLen)
    {
      useAngle2' := useAngle2;
      var targets := if k == 0 then occlusions else mismatches;
      if |targets| == 0 {
        return;
      }
      if k == 2 {
        targets := InvalidScan();
        mismatches := targets;
      }
      var fills;
      fills, useAngle2' := ComputeFills(targets, k, maxLen, useAngle2);
      WriteFills(targets, fills);
    }

    /**
     * Deletes every buffer (a deleted buffer is modelled as an empty one). The
     * initialised flag is left as it was.
     */
    method Release()
      modifies this
      ensures SettingsKept() && Released()
      ensures imgLeft == old(imgLeft) && imgRight == old(imgRight)
    {
      ReleaseCensus();
      ReleaseVolumes();
    }

    /** The census buffers are deleted. */
    method ReleaseCensus()
      modifies this`censusLeft, this`censusRight
      ensures censusLeft.Length == 0 && censusRight.Length == 0
    {
      censusLeft := new nat[0];
      censusRight := new nat[0];
    }

    /** The cost volumes and the disparity maps are deleted. */
    method ReleaseVolumes()
      modifies this`costInit, this`costAggr, this`costAggrPaths, this`dispLeft, this`dispRight
      ensures costInit.Length == 0 && costAggr.Length == 0 && costAggrPaths.Length1 == 0
      ensures dispLeft.Length == 0 && dispRight.Length == 0
    {
      costInit := new u8[0];
      costAggr := new u16[0];
      costAggrPaths := new u8[0, 0];
      dispLeft := new Disp[0];
      dispRight := new Disp[0];
    }
  }
}
