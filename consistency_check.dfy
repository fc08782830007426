// The left/right consistency check of SemiGlobalMatching::LRCheck as a fold
// over the pixels in row-major order: one step per pixel, each step reading
// the left map as earlier steps have left it.
module ConsistencyCheck {
  import opened SgmTypes

  /** The left map and the two pixel lists, as LRCheck updates them. */
  datatype LRState = LRState(disp: seq<Disp>, occlusions: seq<Pixel>, mismatches: seq<Pixel>)

  datatype Verdict = Keep | Occlusion | Mismatch

  /**
   * The verdict on pixel index t when the loop reaches it, `cur` being the left
   * map at that moment. An Invalid pixel is a mismatch. Otherwise the right
   * column is static_cast<sint32>(j - disp + 0.5); outside the image the pixel
   * is a mismatch. A right disparity within the threshold keeps the pixel; one
   * beyond it (the Invalid sentinel always is) sends the pixel back to column
   * col_rl = static_cast<sint32>(col_right + disp_r + 0.5), and the pixel is an
   * occlusion when 0 < col_rl < width and the left map there exceeds disp.
   */
  function LRVerdict(cur: seq<Disp>, right: seq<Disp>, width: int, height: int,
                     thres: real, t: int): Verdict
    requires width > 0 && |cur| == width * height && |right| == width * height
    requires 0 <= t < width * height
  {
    var i, j := t / width, t % width;
    match cur[t]
    case Invalid => Mismatch
    case Val(d) =>
      var colRight := Trunc(j as real - d + 0.5);
      if !(0 <= colRight < width) then Mismatch
      else
        SameRow(width, height, t, colRight);
        match right[i * width + colRight]
        case Invalid => Mismatch
        case Val(dr) =>
          if Abs(d - dr) <= thres then Keep
          else
            var colRl := Trunc(colRight as real + dr + 0.5);
            if 0 < colRl < width && (SameRow(width, height, t, colRl); Exceeds(cur[i * width + colRl], d))
            then Occlusion
            else Mismatch
  }

  /** One iteration of the double loop: the pixel at index t. */
  function LRStep(s: LRState, right: seq<Disp>, width: int, height: int, thres: real,
                  t: int): (s': LRState)
    requires width > 0 && |s.disp| == width * height && |right| == width * height
    requires 0 <= t < width * height
    ensures |s'.disp| == |s.disp|
  {
    match LRVerdict(s.disp, right, width, height, thres, t)
    case Keep => s
    case Occlusion => LRState(s.disp[t := Invalid], s.occlusions + [PixelOf(width, t)], s.mismatches)
    case Mismatch => LRState(s.disp[t := Invalid], s.occlusions, s.mismatches + [PixelOf(width, t)])
  }

  /** The state after the first n pixels, starting from cleared lists. */
  function LRRun(left: seq<Disp>, right: seq<Disp>, width: int, height: int, thres: real,
                 n: int): (s: LRState)
    requires width > 0 && |left| == width * height && |right| == width * height
    requires 0 <= n <= width * height
    ensures |s.disp| == width * height
    decreases n
  {
    if n == 0 then LRState(left, [], [])
    else LRStep(LRRun(left, right, width, height, thres, n - 1), right, width, height, thres, n - 1)
  }

  /** The left map as the loop sees it on reaching q: pixels before q are final, the rest original. */
  function AtTime(disp: seq<Disp>, left: seq<Disp>, q: int): (m: seq<Disp>)
    requires |disp| == |left|
    ensures |m| == |left|
  {
    seq(|left|, r requires 0 <= r < |left| => if r < q then disp[r] else left[r])
  }

  /** Every listed pixel is inside the image, visited, and the list is strictly row-major ascending. */
  ghost predicate ListWellFormed(list: seq<Pixel>, width: int, height: int, n: int)
  {
    && (forall k :: 0 <= k < |list| ==> InImage(width, height, list[k]) && Flat(width, list[k]) < n)
    && (forall a, b :: 0 <= a < b < |list| ==> Flat(width, list[a]) < Flat(width, list[b]))
  }

  /** What the fold has established after n pixels. */
  ghost predicate LRInvariant(left: seq<Disp>, right: seq<Disp>, width: int, height: int,
                              thres: real, n: int, s: LRState)
    requires width > 0 && |left| == width * height && |right| == width * height
  {
    && |s.disp| == width * height
    && 0 <= n <= width * height
    && (forall q :: n <= q < width * height ==> s.disp[q] == left[q])
    && ListWellFormed(s.occlusions, width, height, n)
    && ListWellFormed(s.mismatches, width, height, n)
    && VerdictsRecorded(left, right, width, height, thres, n, s)
  }

  /**
   * Each of the first n pixels is listed as an occlusion or a mismatch exactly
   * when the comparison, run on the map as the loop saw it then, said so, and
   * is Invalid in the map unless it was kept.
   */
  ghost predicate VerdictsRecorded(left: seq<Disp>, right: seq<Disp>, width: int, height: int,
                                   thres: real, n: int, s: LRState)
    requires width > 0 && |left| == width * height && |right| == width * height
    requires |s.disp| == width * height && 0 <= n <= width * height
  {
    forall q :: 0 <= q < n ==>
      var v := LRVerdict(AtTime(s.disp, left, q), right, width, height, thres, q);
      && (PixelOf(width, q) in s.occlusions <==> v == Occlusion)
      && (PixelOf(width, q) in s.mismatches <==> v == Mismatch)
      && s.disp[q] == (if v == Keep then left[q] else Invalid)
  }

  lemma AtTimeAfterStep(left: seq<Disp>, d0: seq<Disp>, d1: seq<Disp>, t: int, q: int)
    requires |d0| == |left| == |d1| && 0 <= t < |left| && q <= t
    requires forall r :: 0 <= r < |left| && r != t ==> d1[r] == d0[r]
    ensures AtTime(d1, left, q) == AtTime(d0, left, q)
  {
  }

  lemma PixelOfInjective(width: int, height: int, a: int, b: int)
    requires width > 0 && 0 <= a < width * height && 0 <= b < width * height
    requires PixelOf(width, a) == PixelOf(width, b)
    ensures a == b
  {
    PixelOfInImage(width, height, a);
    PixelOfInImage(width, height, b);
  }

  /** A list that only holds pixels before t does not hold pixel t. */
  lemma NotYetListed(list: seq<Pixel>, width: int, height: int, t: int)
    requires width > 0 && 0 <= t < width * height && ListWellFormed(list, width, height, t)
    ensures PixelOf(width, t) !in list
  {
    PixelOfInImage(width, height, t);
  }

  /** Appending pixel t to a list of earlier pixels keeps it well formed. */
  lemma AppendWellFormed(list: seq<Pixel>, width: int, height: int, t: int)
    requires width > 0 && 0 <= t < width * height && ListWellFormed(list, width, height, t)
    ensures ListWellFormed(list + [PixelOf(width, t)], width, height, t + 1)
  {
    PixelOfInImage(width, height, t);
  }

  lemma {:induction false} LRStepPreserves(left: seq<Disp>, right: seq<Disp>, width: int,
                                           height: int, thres: real, n: int, s: LRState)
    requires width > 0 && |left| == width * height && |right| == width * height
    requires 0 < n <= width * height && LRInvariant(left, right, width, height, thres, n - 1, s)
    ensures LRInvariant(left, right, width, height, thres, n,
                        LRStep(s, right, width, height, thres, n - 1))
  {
    var t := n - 1;
    var s' := LRStep(s, right, width, height, thres, t);
    var v := LRVerdict(s.disp, right, width, height, thres, t);
    var px := PixelOf(width, t);
    NotYetListed(s.occlusions, width, height, t);
    NotYetListed(s.mismatches, width, height, t);
    AppendWellFormed(s.occlusions, width, height, t);
    AppendWellFormed(s.mismatches, width, height, t);
    assert forall r :: 0 <= r < |left| && r != t ==> s'.disp[r] == s.disp[r];
    assert AtTime(s'.disp, left, t) == s.disp;
    forall q | 0 <= q < t + 1
      ensures var w := LRVerdict(AtTime(s'.disp, left, q), right, width, height, thres, q);
        && (PixelOf(width, q) in s'.occlusions <==> w == Occlusion)
        && (PixelOf(width, q) in s'.mismatches <==> w == Mismatch)
        && s'.disp[q] == (if w == Keep then left[q] else Invalid)
    {
      if q < t {
        AtTimeAfterStep(left, s.disp, s'.disp, t, q);
        if PixelOf(width, q) == px {
          PixelOfInjective(width, height, q, t);
        }
      }
    }
  }

  /** Before the first pixel: the map is the original one and both lists are empty. */
  lemma LRInvariantInit(left: seq<Disp>, right: seq<Disp>, width: int, height: int, thres: real)
    requires width > 0 && |left| == width * height && |right| == width * height
    ensures LRInvariant(left, right, width, height, thres, 0, LRState(left, [], []))
  {
  }

  /** The fold is fully characterised after any number of pixels. */
  lemma {:induction false} LRRunInvariant(left: seq<Disp>, right: seq<Disp>, width: int,
                                          height: int, thres: real, n: int)
    requires width > 0 && |left| == width * height && |right| == width * height
    requires 0 <= n <= width * height
    ensures LRInvariant(left, right, width, height, thres, n,
                        LRRun(left, right, width, height, thres, n))
    decreases n
  {
    if n == 0 {
      LRInvariantInit(left, right, width, height, thres);
    } else {
      var s := LRRun(left, right, width, height, thres, n - 1);
      LRRunInvariant(left, right, width, height, thres, n - 1);
      LRStepPreserves(left, right, width, height, thres, n, s);
      assert LRStep(s, right, width, height, thres, n - 1) == LRRun(left, right, width, height, thres, n);
    }
  }

  // ---- what the check leaves behind ------------------------------------------

  /** The state after every pixel of a width x height image. */
  function LRFinal(left: seq<Disp>, right: seq<Disp>, width: int, height: int, thres: real): (s: LRState)
    requires width > 0 && height >= 0 && |left| == width * height && |right| == width * height
    ensures |s.disp| == width * height
  {
    LRRun(left, right, width, height, thres, width * height)
  }

  /**
   * Pixel q passes the comparison: it held a disparity d, column
   * trunc(j - d + 0.5) of the right map is inside the row, and the right
   * disparity there is within the threshold of d.
   */
  predicate Consistent(left: seq<Disp>, right: seq<Disp>, width: int, height: int, thres: real, q: int)
    requires width > 0 && |left| == width * height && |right| == width * height
    requires 0 <= q < width * height
  {
    && left[q].Val?
    && var colRight := Trunc((q % width) as real - left[q].r + 0.5);
    && 0 <= colRight < width
    && (SameRow(width, height, q, colRight);
        var r := right[(q / width) * width + colRight];
        r.Val? && Abs(left[q].r - r.r) <= thres)
  }

  /** Both lists hold image pixels in strictly ascending row-major order, hence no duplicates. */
  lemma LRListsAscending(left: seq<Disp>, right: seq<Disp>, width: int, height: int, thres: real)
    requires width > 0 && height >= 0 && |left| == width * height && |right| == width * height
    ensures var s := LRFinal(left, right, width, height, thres);
      && ListWellFormed(s.occlusions, width, height, width * height)
      && ListWellFormed(s.mismatches, width, height, width * height)
  {
    LRRunInvariant(left, right, width, height, thres, width * height);
  }

  /** No pixel is both an occlusion and a mismatch. */
  lemma LRDisjoint(left: seq<Disp>, right: seq<Disp>, width: int, height: int, thres: real, q: int)
    requires width > 0 && height >= 0 && |left| == width * height && |right| == width * height
    requires 0 <= q < width * height
    ensures var s := LRFinal(left, right, width, height, thres);
      !(PixelOf(width, q) in s.occlusions && PixelOf(width, q) in s.mismatches)
  {
    LRRunInvariant(left, right, width, height, thres, width * height);
  }

  /** The invariant, read at one visited pixel. */
  lemma InvariantAt(left: seq<Disp>, right: seq<Disp>, width: int, height: int, thres: real,
                    n: int, s: LRState, q: int)
    requires width > 0 && |left| == width * height && |right| == width * height
    requires LRInvariant(left, right, width, height, thres, n, s) && 0 <= q < n
    ensures |s.disp| == width * height
    ensures var v := LRVerdict(AtTime(s.disp, left, q), right, width, height, thres, q);
      && (PixelOf(width, q) in s.occlusions <==> v == Occlusion)
      && (PixelOf(width, q) in s.mismatches <==> v == Mismatch)
      && s.disp[q] == (if v == Keep then left[q] else Invalid)
  {
  }

  /** The verdict depends on the pixel's own entry only through its original value. */
  lemma VerdictKeep(cur: seq<Disp>, left: seq<Disp>, right: seq<Disp>, width: int, height: int,
                    thres: real, q: int)
    requires width > 0 && |cur| == width * height && |left| == width * height && |right| == width * height
    requires 0 <= q < width * height && cur[q] == left[q]
    ensures LRVerdict(cur, right, width, height, thres, q) == Keep
            <==> Consistent(left, right, width, height, thres, q)
    ensures left[q] == Invalid ==> LRVerdict(cur, right, width, height, thres, q) == Mismatch
  {
    if left[q].Val? {
      var d := left[q].r;
      var colRight := Trunc((q % width) as real - d + 0.5);
      if 0 <= colRight < width {
        SameRow(width, height, q, colRight);
        var r := right[(q / width) * width + colRight];
        assert Consistent(left, right, width, height, thres, q) <==> r.Val? && Abs(d - r.r) <= thres;
      }
    }
  }

  /** Every listed pixel is left Invalid; every unlisted pixel keeps its value and is consistent. */
  lemma LRListedOrKept(left: seq<Disp>, right: seq<Disp>, width: int, height: int, thres: real, q: int)
    requires width > 0 && height >= 0 && |left| == width * height && |right| == width * height
    requires 0 <= q < width * height
    ensures var s := LRFinal(left, right, width, height, thres);
      var listed := PixelOf(width, q) in s.occlusions || PixelOf(width, q) in s.mismatches;
      && (listed ==> s.disp[q] == Invalid)
      && (!listed <==> Consistent(left, right, width, height, thres, q))
      && (!listed ==> s.disp[q] == left[q])
  {
    var s := LRFinal(left, right, width, height, thres);
    LRRunInvariant(left, right, width, height, thres, width * height);
    InvariantAt(left, right, width, height, thres, width * height, s, q);
    VerdictKeep(AtTime(s.disp, left, q), left, right, width, height, thres, q);
  }

  /** A pixel that was already Invalid is recorded as a mismatch. */
  lemma LRInvalidIsMismatch(left: seq<Disp>, right: seq<Disp>, width: int, height: int, thres: real, q: int)
    requires width > 0 && height >= 0 && |left| == width * height && |right| == width * height
    requires 0 <= q < width * height && left[q] == Invalid
    ensures PixelOf(width, q) in LRFinal(left, right, width, height, thres).mismatches
  {
    var s := LRFinal(left, right, width, height, thres);
    LRRunInvariant(left, right, width, height, thres, width * height);
    InvariantAt(left, right, width, height, thres, width * height, s, q);
    VerdictKeep(AtTime(s.disp, left, q), left, right, width, height, thres, q);
  }

  /** What an Occlusion verdict on an original value says about the maps. */
  lemma VerdictOcclusion(cur: seq<Disp>, left: seq<Disp>, right: seq<Disp>, width: int, height: int,
                         thres: real, q: int)
    requires width > 0 && |cur| == width * height && |left| == width * height && |right| == width * height
    requires 0 <= q < width * height && cur[q] == left[q]
    requires LRVerdict(cur, right, width, height, thres, q) == Occlusion
    ensures left[q].Val? && !Consistent(left, right, width, height, thres, q)
    ensures var colRight := Trunc((q % width) as real - left[q].r + 0.5);
      && 0 <= colRight < width
      && (SameRow(width, height, q, colRight);
          var r := right[(q / width) * width + colRight];
          && r.Val?
          && var colRl := Trunc(colRight as real + r.r + 0.5);
          && 0 < colRl < width
          && (SameRow(width, height, q, colRl);
              Exceeds(cur[(q / width) * width + colRl], left[q].r)))
  {
    VerdictKeep(cur, left, right, width, height, thres, q);
    var d := left[q].r;
    var colRight := Trunc((q % width) as real - d + 0.5);
    SameRow(width, height, q, colRight);
    var r := right[(q / width) * width + colRight];
    var colRl := Trunc(colRight as real + r.r + 0.5);
    SameRow(width, height, q, colRl);
  }

  /**
   * An occlusion had a disparity d that failed the comparison, and the column
   * col_rl it maps back to lies strictly inside (0, width), where the left map,
   * as the loop had left it on reaching the pixel, exceeds d.
   */
  lemma LROcclusionWitness(left: seq<Disp>, right: seq<Disp>, width: int, height: int, thres: real, q: int)
    requires width > 0 && height >= 0 && |left| == width * height && |right| == width * height
    requires 0 <= q < width * height
    requires PixelOf(width, q) in LRFinal(left, right, width, height, thres).occlusions
    ensures left[q].Val? && !Consistent(left, right, width, height, thres, q)
    ensures var s := LRFinal(left, right, width, height, thres);
      var colRight := Trunc((q % width) as real - left[q].r + 0.5);
      && 0 <= colRight < width
      && (SameRow(width, height, q, colRight);
          var r := right[(q / width) * width + colRight];
          && r.Val?
          && var colRl := Trunc(colRight as real + r.r + 0.5);
          && 0 < colRl < width
          && (SameRow(width, height, q, colRl);
              Exceeds(AtTime(s.disp, left, q)[(q / width) * width + colRl], left[q].r)))
  {
    var s := LRFinal(left, right, width, height, thres);
    LRRunInvariant(left, right, width, height, thres, width * height);
    InvariantAt(left, right, width, height, thres, width * height, s, q);
    VerdictOcclusion(AtTime(s.disp, left, q), left, right, width, height, thres, q);
  }
}
