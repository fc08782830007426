// Winner-take-all disparity choice for one pixel, as the bodies of
// SemiGlobalMatching::ComputeDisparity and ComputeDisparityRight perform it:
// an argmin over the aggregated costs, the uniqueness test, the rejection of
// the two boundary disparities and the parabolic subpixel fit.
module DisparitySelection {
  import opened SgmTypes

  /** The smallest cost of a pixel's cost vector. */
  function MinOf(s: seq<int>): (m: int)
    requires |s| > 0
    ensures exists k :: 0 <= k < |s| && s[k] == m
    ensures forall k :: 0 <= k < |s| ==> m <= s[k]
  {
    if |s| == 1 then s[0]
    else
      var m' := MinOf(s[..|s| - 1]);
      assert forall k :: 0 <= k < |s| - 1 ==> s[..|s| - 1][k] == s[k];
      if s[|s| - 1] < m' then s[|s| - 1] else m'
  }

  /** The first index at which the cost vector attains its minimum. */
  function FirstMinIndex(s: seq<int>): (k: nat)
    requires |s| > 0
    ensures k < |s| && s[k] == MinOf(s)
    ensures forall t :: 0 <= t < k ==> s[t] > s[k]
  {
    if s[0] == MinOf(s) then 0
    else
      var k' := FirstMinIndex(s[1..]);
      assert MinOf(s[1..]) == MinOf(s) by {
        var a := MinOf(s[1..]);
        var w :| 0 <= w < |s| && s[w] == MinOf(s);
        assert w > 0 && s[1..][w - 1] == s[w];
        assert forall t :: 1 <= t < |s| ==> s[1..][t - 1] == s[t];
      }
      k' + 1
  }

  /**
   * The second pass of the source: the smallest cost over every disparity
   * other than the chosen one, starting from UINT16_MAX.
   */
  function SecondMin(s: seq<int>, skip: int): (m: int)
    ensures m <= UINT16_MAX
    ensures forall t :: 0 <= t < |s| && t != skip ==> m <= s[t]
    ensures m == UINT16_MAX || exists t :: 0 <= t < |s| && t != skip && s[t] == m
  {
    if |s| == 0 then UINT16_MAX
    else
      var m' := SecondMin(s[..|s| - 1], skip);
      assert forall t :: 0 <= t < |s| - 1 ==> s[..|s| - 1][t] == s[t];
      if |s| - 1 != skip && s[|s| - 1] < m' then s[|s| - 1] else m'
  }

  /**
   * The uniqueness threshold static_cast<uint16>(min_cost * (1 - ratio)),
   * a truncation of the exact product.
   */
  function UniquenessThreshold(minCost: int, ratio: real): int
  {
    Trunc(minCost as real * (1.0 - ratio))
  }

  /** The subpixel correction (c1 - c2) / (2 * max(1, c1 + c2 - 2 * min)). */
  function SubpixelOffset(c1: int, c2: int, minCost: int): real
  {
    var denom := if c1 + c2 - 2 * minCost > 1 then c1 + c2 - 2 * minCost else 1;
    (c1 - c2) as real / (2 * denom) as real
  }

  /**
   * The disparity the source stores for a pixel with cost vector `costs`
   * (entry k belongs to disparity minDisp + k). Invalid when no cost beats the
   * initial UINT16_MAX, when the uniqueness test fails, or when the best
   * disparity is min_disparity or max_disparity - 1.
   */
  function DisparityOf(costs: seq<u16>, minDisp: int, unique: bool, ratio: real): Disp
    requires |costs| > 0
  {
    var m := MinOf(costs);
    var k := FirstMinIndex(costs);
    if m == UINT16_MAX then Invalid
    else if unique && SecondMin(costs, k) - m <= UniquenessThreshold(m, ratio) then Invalid
    else if k == 0 || k == |costs| - 1 then Invalid
    else
      var best := minDisp + k;
      Val(best as real + SubpixelOffset(costs[k - 1], costs[k + 1], m))
  }

  // ---- properties ----------------------------------------------------------

  /** Both neighbours cost at least the minimum, so the fit moves by at most half a pixel. */
  lemma SubpixelWithinHalf(c1: int, c2: int, minCost: int)
    requires minCost <= c1 && minCost <= c2
    ensures -0.5 <= SubpixelOffset(c1, c2, minCost) <= 0.5
  {
    var e := c1 + c2 - 2 * minCost;
    if e > 1 {
      QuotientWithinHalf((c1 - c2) as real, (2 * e) as real);
    } else {
      assert -1 <= c1 - c2 <= 1;
    }
  }

  /** |x| <= q / 2 bounds x / q by one half. */
  lemma QuotientWithinHalf(x: real, q: real)
    requires q > 0.0 && -q <= 2.0 * x <= q
    ensures -0.5 <= x / q <= 0.5
  {
    var r := x / q;
    assert (r - 0.5) * q == x - 0.5 * q <= 0.0;
    assert (r + 0.5) * q == x + 0.5 * q >= 0.0;
  }

  /**
   * A disparity that survives lies strictly inside (min_disparity, max_disparity - 1),
   * within half a pixel of the first cost minimum, whose neighbours both exist.
   */
  lemma ValidDisparityBounds(costs: seq<u16>, minDisp: int, unique: bool, ratio: real)
    requires |costs| > 0
    ensures var r := DisparityOf(costs, minDisp, unique, ratio);
      var k := FirstMinIndex(costs);
      r.Val? ==>
        && 0 < k < |costs| - 1
        && (minDisp + k) as real - 0.5 <= r.r <= (minDisp + k) as real + 0.5
        && minDisp as real < r.r < (minDisp + |costs| - 1) as real
  {
    var k := FirstMinIndex(costs);
    if 0 < k < |costs| - 1 {
      SubpixelWithinHalf(costs[k - 1], costs[k + 1], MinOf(costs));
    }
  }

  /** The first minimum at either end of the range is always rejected. */
  lemma BoundaryRejected(costs: seq<u16>, minDisp: int, unique: bool, ratio: real)
    requires |costs| > 0
    requires FirstMinIndex(costs) == 0 || FirstMinIndex(costs) == |costs| - 1
    ensures DisparityOf(costs, minDisp, unique, ratio) == Invalid
  {
  }

  /**
   * With the uniqueness check on and ratio in [0, 1], a second disparity with
   * the same minimal cost makes the pixel Invalid: an exact tie never survives.
   */
  lemma TieRejected(costs: seq<u16>, minDisp: int, ratio: real, t: int)
    requires |costs| > 0 && 0.0 <= ratio <= 1.0
    requires 0 <= t < |costs| && t != FirstMinIndex(costs) && costs[t] == MinOf(costs)
    ensures DisparityOf(costs, minDisp, true, ratio) == Invalid
  {
    var m := MinOf(costs);
    var k := FirstMinIndex(costs);
    var s := SecondMin(costs, k);
    assert s <= m;
    assert s >= m by {
      if s < UINT16_MAX {
        var w :| 0 <= w < |costs| && w != k && costs[w] == s;
      }
    }
    ThresholdNonNegative(m, ratio);
    assert s - m <= UniquenessThreshold(m, ratio);
  }

  lemma ThresholdNonNegative(m: int, ratio: real)
    requires m >= 0 && ratio <= 1.0
    ensures UniquenessThreshold(m, ratio) >= 0
  {
    assert m as real * (1.0 - ratio) >= 0.0;
  }

  /** The chosen disparity is the first minimum: no earlier disparity is as cheap. */
  lemma ChoiceIsFirstMinimum(costs: seq<u16>, minDisp: int, unique: bool, ratio: real)
    requires |costs| > 0
    ensures var r := DisparityOf(costs, minDisp, unique, ratio);
      var k := FirstMinIndex(costs);
      r.Val? ==>
        && (forall t :: 0 <= t < k ==> costs[t] > costs[k])
        && (forall t :: 0 <= t < |costs| ==> costs[k] <= costs[t])
        && costs[k] < UINT16_MAX
  {
  }

  // ---- the per-pixel loops ---------------------------------------------------

  /**
   * The first scan of a pixel: min_cost starts at UINT16_MAX and best_disparity
   * at 0, and both move only when a cost is strictly smaller (`min_cost > cost`).
   */
  method ScanBest(costs: seq<u16>, minDisp: int, maxDisp: int) returns (minCost: int, best: int)
    requires |costs| == maxDisp - minDisp > 0
    ensures minCost == MinOf(costs)
    ensures best == BestAsWritten(costs, minDisp)
  {
    minCost, best := UINT16_MAX, 0;
    for d := minDisp to maxDisp
      invariant minCost <= UINT16_MAX
      invariant forall t :: 0 <= t < d - minDisp ==> minCost <= costs[t]
      invariant minCost < UINT16_MAX ==>
        && minDisp <= best < d && costs[best - minDisp] == minCost
        && forall t :: 0 <= t < best - minDisp ==> costs[t] > minCost
      invariant minCost == UINT16_MAX ==> best == 0
    {
      if minCost > costs[d - minDisp] {
        minCost := costs[d - minDisp];
        best := d;
      }
    }
    if minCost < UINT16_MAX {
      assert costs[best - minDisp] == minCost;
      assert FirstMinIndex(costs) == best - minDisp;
    } else {
      assert costs[FirstMinIndex(costs)] >= minCost;
    }
  }

  /** The second scan: the smallest cost of every disparity except best_disparity. */
  method ScanSecondMin(costs: seq<u16>, minDisp: int, maxDisp: int, best: int)
    returns (secMinCost: int)
    requires |costs| == maxDisp - minDisp > 0
    ensures secMinCost == SecondMin(costs, best - minDisp)
  {
    secMinCost := UINT16_MAX;
    for d := minDisp to maxDisp
      invariant secMinCost == SecondMin(costs[..d - minDisp], best - minDisp)
    {
      assert costs[..d - minDisp + 1][..d - minDisp] == costs[..d - minDisp];
      if d == best {
        continue;
      }
      secMinCost := if costs[d - minDisp] < secMinCost then costs[d - minDisp] else secMinCost;
    }
    assert costs[..maxDisp - minDisp] == costs;
  }

  /**
   * One pixel of ComputeDisparity / ComputeDisparityRight: the two scans, the
   * uniqueness test, the rejections and the parabolic fit.
   */
  method PixelDisparity(costs: seq<u16>, minDisp: int, maxDisp: int, unique: bool, ratio: real)
    returns (disp: Disp)
    requires |costs| == maxDisp - minDisp > 0
    ensures disp == DisparityOf(costs, minDisp, unique, ratio)
  {
    var minCost, best := ScanBest(costs, minDisp, maxDisp);
    ghost var k := FirstMinIndex(costs);
    assert minCost < UINT16_MAX ==> best - minDisp == k;
    if unique {
      var secMinCost := ScanSecondMin(costs, minDisp, maxDisp, best);
      if secMinCost - minCost <= UniquenessThreshold(minCost, ratio) {
        disp := Invalid;
        return;
      }
    }
    // The source tests only the two boundaries; a scan that found no cost below
    // UINT16_MAX is rejected here too (see NoCandidateIndexOutside).
    if minCost == UINT16_MAX || best == minDisp || best == maxDisp - 1 {
      disp := Invalid;
      return;
    }
    var cost1 := costs[best - 1 - minDisp];
    var cost2 := costs[best + 1 - minDisp];
    disp := Val(best as real + SubpixelOffset(cost1, cost2, minCost));
  }

  // ---- cost vectors of the two views ----------------------------------------

  /** The left view reads the pixel's own D costs: entries p*D .. p*D + D - 1. */
  function LeftCosts(volume: seq<u16>, range: int, p: int): (c: seq<u16>)
    requires range > 0 && 0 <= p && (p + 1) * range <= |volume|
    ensures |c| == range
  {
    assert p * range + range == (p + 1) * range;
    volume[p * range .. p * range + range]
  }

  /**
   * The right view takes the cost of right pixel (i, j) at disparity
   * min_disparity + k from left pixel (i, j + min_disparity + k); a disparity
   * for which that column leaves the image costs UINT16_MAX.
   */
  function RightCost(volume: seq<u16>, width: int, height: int, opt: SgmOption,
                     i: int, j: int, k: int): u16
    requires width > 0 && opt.DispRange() > 0 && InImage(width, height, Pixel(i, j))
    requires |volume| == width * height * opt.DispRange() && 0 <= k < opt.DispRange()
  {
    var col := j + opt.minDisparity + k;
    if 0 <= col < width then
      VolumeIndex(width, height, opt.DispRange(), i, col, k);
      volume[(i * width + col) * opt.DispRange() + k]
    else UINT16_MAX
  }

  /** The cost vector of right pixel (i, j). */
  function RightCosts(volume: seq<u16>, width: int, height: int, opt: SgmOption,
                      i: int, j: int): (c: seq<u16>)
    requires width > 0 && opt.DispRange() > 0 && InImage(width, height, Pixel(i, j))
    requires |volume| == width * height * opt.DispRange()
    ensures |c| == opt.DispRange()
  {
    seq(opt.DispRange(), k requires 0 <= k < opt.DispRange() =>
      RightCost(volume, width, height, opt, i, j, k))
  }

  /**
   * A disparity whose left column j + d leaves the image never becomes the
   * chosen one when some other disparity has a real cost below UINT16_MAX.
   */
  lemma OutsideNeverChosen(volume: seq<u16>, width: int, height: int, opt: SgmOption,
                           i: int, j: int)
    requires width > 0 && opt.DispRange() > 0 && InImage(width, height, Pixel(i, j))
    requires |volume| == width * height * opt.DispRange()
    ensures var c := RightCosts(volume, width, height, opt, i, j);
      var k := FirstMinIndex(c);
      MinOf(c) < UINT16_MAX ==> 0 <= j + opt.minDisparity + k < width
  {
  }

  // ---- what the source does where the model departs from it ----------------

  /** best_disparity as the source's scan leaves it: 0 when no cost beat UINT16_MAX. */
  function BestAsWritten(costs: seq<u16>, minDisp: int): (best: int)
    requires |costs| > 0
    ensures MinOf(costs) < UINT16_MAX ==> best == minDisp + FirstMinIndex(costs)
  {
    if MinOf(costs) < UINT16_MAX then minDisp + FirstMinIndex(costs) else 0
  }

  /**
   * Right view: when every left column j + d lies outside the image, the scan
   * keeps best_disparity 0. If 0 is not a disparity of the range, the fit
   * indices best - 1 - min_disparity and best + 1 - min_disparity are not both
   * inside [0, D), so with the uniqueness check off the fit reads outside
   * cost_local. The corrected choice rejects the pixel.
   */
  lemma NoCandidateIndexOutside(volume: seq<u16>, width: int, height: int, opt: SgmOption,
                                i: int, j: int)
    requires width > 0 && opt.DispRange() > 0 && InImage(width, height, Pixel(i, j))
    requires |volume| == width * height * opt.DispRange()
    requires j + opt.minDisparity >= width || j + opt.maxDisparity <= 0
    requires !(opt.minDisparity <= 0 < opt.maxDisparity)
    ensures var c := RightCosts(volume, width, height, opt, i, j);
      var best := BestAsWritten(c, opt.minDisparity);
      && best == 0
      && !(0 <= best - 1 - opt.minDisparity < |c| && 0 <= best + 1 - opt.minDisparity < |c|)
      && DisparityOf(c, opt.minDisparity, opt.isCheckUnique, opt.uniquenessRatio) == Invalid
  {
    var c := RightCosts(volume, width, height, opt, i, j);
    forall k | 0 <= k < |c|
      ensures c[k] == UINT16_MAX
    {
      assert c[k] == RightCost(volume, width, height, opt, i, j, k);
    }
  }

  /** The source's denominator: max(1, c1 + c2 - 2 * min) stored in a uint16. */
  function StoredDenom(c1: int, c2: int, minCost: int): (d: u16)
    requires minCost <= c1 && minCost <= c2
    ensures c1 + c2 - 2 * minCost <= UINT16_MAX ==>
      d == if c1 + c2 - 2 * minCost > 1 then c1 + c2 - 2 * minCost else 1
  {
    (if c1 + c2 - 2 * minCost > 1 then c1 + c2 - 2 * minCost else 1) % 65536
  }

  /** The source's fit, with the stored (possibly wrapped) denominator. */
  function SubpixelAsWritten(best: int, c1: int, c2: int, minCost: int): real
    requires minCost <= c1 && minCost <= c2 && StoredDenom(c1, c2, minCost) != 0
  {
    best as real + (c1 - c2) as real / (2 * StoredDenom(c1, c2, minCost)) as real
  }

  /**
   * With aggregated costs of at most 8 * 255 (the left view) the uint16
   * denominator never wraps, so the source's fit equals the model's.
   */
  lemma DenomFitsForBoundedCosts(best: int, c1: int, c2: int, minCost: int)
    requires 0 <= minCost <= c1 <= 8 * UINT8_MAX && minCost <= c2 <= 8 * UINT8_MAX
    ensures StoredDenom(c1, c2, minCost) != 0
    ensures SubpixelAsWritten(best, c1, c2, minCost)
            == best as real + SubpixelOffset(c1, c2, minCost)
  {
  }

  /**
   * Right view, width 10, disparities [0, 4), pixel (0, 7): d = 3 needs left
   * column 10, so cost_2 is UINT16_MAX; 5 + 65535 - 0 wraps to 4 in the uint16
   * denominator and the source stores 2 - 65530 / 8 = -8189.25, far outside
   * [1.5, 2.5]. The corrected fit stays within half a pixel of disparity 2.
   */
  lemma DenomWrapCounterexample(opt: SgmOption)
    requires opt.minDisparity == 0 && opt.maxDisparity == 4
    ensures var c := RightCosts(WrapVolume(), 10, 1, opt, 0, 7);
      && c == [10, 5, 0, UINT16_MAX]
      && MinOf(c) == 0 && FirstMinIndex(c) == 2
      && StoredDenom(c[1], c[3], 0) == 4
      && SubpixelAsWritten(2, c[1], c[3], 0) == -8189.25
      && var r := DisparityOf(c, 0, false, opt.uniquenessRatio);
      && r.Val? && 1.5 <= r.r <= 2.5
  {
    var c := RightCosts(WrapVolume(), 10, 1, opt, 0, 7);
    WrapVolumeCosts(opt);
    WrapCostsMinimum(c);
    ValidDisparityBounds(c, 0, false, opt.uniquenessRatio);
  }

  /** The volume of that example: costs 10, 5 and 0 at the entries pixel (0, 7) reads, 100 elsewhere. */
  function WrapVolume(): (v: seq<u16>)
    ensures |v| == 10 * 1 * 4
  {
    seq(10 * 1 * 4, t => if t == 28 then 10 else if t == 33 then 5 else if t == 38 then 0 else 100)
  }

  /** Right pixel (0, 7) of that volume reads left columns 7, 8, 9 and 10. */
  lemma WrapVolumeCosts(opt: SgmOption)
    requires opt.minDisparity == 0 && opt.maxDisparity == 4
    ensures RightCosts(WrapVolume(), 10, 1, opt, 0, 7) == [10, 5, 0, UINT16_MAX]
  {
    var c := RightCosts(WrapVolume(), 10, 1, opt, 0, 7);
    assert c[0] == 10 && c[1] == 5 && c[2] == 0 && c[3] == UINT16_MAX;
  }

  /** The minimum of those costs is 0, first reached at index 2. */
  lemma WrapCostsMinimum(c: seq<u16>)
    requires c == [10, 5, 0, UINT16_MAX]
    ensures MinOf(c) == 0 && FirstMinIndex(c) == 2
  {
    assert MinOf(c) == 0;
  }
}
