# Semi-global stereo matching, modelled in Dafny

This project models the `SemiGlobalMatching` class of the dense-cloud library
(`Modules/Libs/Shared/DenseCloud/SemiGlobalMatching.cpp`). The class is a stateful stereo
matcher. It owns these flat buffers:

- the census codes of both images;
- the initial cost volume;
- eight directional cost volumes and their sum;
- the left and right disparity maps;
- two pixel lists, occlusions and mismatches.

`Match` runs a fixed pipeline over these buffers:

1. census transform;
2. matching cost;
3. path aggregation;
4. winner-take-all disparity with a uniqueness test and a parabolic subpixel fit;
5. an optional left/right consistency check;
6. optional speckle removal;
7. optional three-pass hole filling;
8. a median filter.

The model keeps the class's shape:

- `SemiGlobal.SemiGlobalMatching` is a Dafny `class`.
- Its buffers are `array` fields.
- Its pixel lists are `seq<Pixel>` fields that the methods reassign.
- Each stage is a method whose loops write the arrays in place, in the source's loop order.
- Each stage method is proved against a pure stage function of the buffers it reads.

| file | module | contents |
|---|---|---|
| `sgm_types.dfy` | `SgmTypes` | integer widths, `Disp` (a real or the `Invalid` sentinel), `Pixel`, the option record, row-major index arithmetic |
| `matching_cost.dfy` | `MatchingCost` | census Hamming distance and the cost volume |
| `disparity_selection.dfy` | `DisparitySelection` | per-pixel argmin, uniqueness test, boundary rejection, subpixel fit, and the cost vectors of the left and right views |
| `consistency_check.dfy` | `ConsistencyCheck` | the left/right check as a fold over the pixels in row-major order |
| `hole_filling.dfy` | `HoleFilling` | search rays, candidate collection, sorted selection, batched writes, the three passes |
| `semi_global_matching.dfy` | `SemiGlobal` | the class, its lifecycle, and every stage as a loop over its buffers |

The `sgm_util` routines the class calls are census transform, directional aggregation,
speckle removal and the median filter. Their bodies are not part of this model. They enter
as the function fields of an `Externals` value passed to `Match`, each giving the value the
routine leaves at one output index.

Disparities are exact reals, and the `Invalid_Float` sentinel is a constructor of its own. The
sentinel compares as larger than every disparity, as an infinite float would.

## Model

All source cells refer to `Modules/Libs/Shared/DenseCloud/SemiGlobalMatching.cpp`.

| member | source | states |
|---|---|---|
| SemiGlobal.SemiGlobalMatching.constructor | Modules/Libs/Shared/DenseCloud/SemiGlobalMatching.cpp:8-18 | a new matcher is not initialised, has size 0, owns only empty buffers and has empty pixel lists |
| SemiGlobal.SemiGlobalMatching.Initialize | Modules/Libs/Shared/DenseCloud/SemiGlobalMatching.cpp:28-77 | width, height and options are stored before any check. The result is true exactly when width and height are non-zero and max_disparity > min_disparity. On success every buffer has its W·H or W·H·D size and the summed volume is zero. A zero size allocates nothing. A bad range fails after the census buffers were already replaced by fresh ones. A failure keeps the initialised flag and every cost volume, path buffer and disparity map. The pixel lists are never touched |
| SemiGlobal.SemiGlobalMatching.AllocateCensus | Modules/Libs/Shared/DenseCloud/SemiGlobalMatching.cpp:40-50 | two distinct fresh census buffers of W·H codes |
| SemiGlobal.SemiGlobalMatching.AllocateVolumes | Modules/Libs/Shared/DenseCloud/SemiGlobalMatching.cpp:52-76 | fails iff disp_range <= 0, leaving the initial and summed volumes, the path buffers, both maps and the flag as they were; otherwise allocates every volume and map with its size and sets the flag |
| SemiGlobal.SemiGlobalMatching.AllocateBuffers | Modules/Libs/Shared/DenseCloud/SemiGlobalMatching.cpp:58-72 | the cost volumes have W·H·D entries, with eight directional rows; the summed volume is zero; the two maps are distinct, fresh and of W·H pixels |
| SemiGlobal.SemiGlobalMatching.Match | Modules/Libs/Shared/DenseCloud/SemiGlobalMatching.cpp:79-152 | on a matcher whose buffers and lists fit its size when the flag is set (`Valid`), returns true iff the matcher is initialised and both images are present. Otherwise nothing at all changes and there is no output. On success the left map and both lists equal MatchResult of the two images, the previous summed volume and the previous lists, and the output is the left map |
| SemiGlobal.SemiGlobalMatching.CostStages | Modules/Libs/Shared/DenseCloud/SemiGlobalMatching.cpp:93-105 | census, cost and aggregation leave the summed volume equal to CostStagesResult |
| SemiGlobal.SemiGlobalMatching.RefineStages | Modules/Libs/Shared/DenseCloud/SemiGlobalMatching.cpp:113-141 | disparity, then the optional left/right check, speckle removal and hole filling, then the median filter, in the source's order, leave the left map and lists equal to RefineResult |
| SemiGlobal.SemiGlobalMatching.CensusTransform | Modules/Libs/Shared/DenseCloud/SemiGlobalMatching.cpp:154-165 | each census buffer holds its image's census codes for the configured window |
| SemiGlobal.SemiGlobalMatching.ComputeCost | Modules/Libs/Shared/DenseCloud/SemiGlobalMatching.cpp:167-202 | the initial cost volume equals CostVolume of the two census buffers, one entry for each (i, j, d) |
| SemiGlobal.SemiGlobalMatching.ComputeCostRow | Modules/Libs/Shared/DenseCloud/SemiGlobalMatching.cpp:177-201 | after row i the volume agrees with CostVolume on every entry of rows 0..i |
| SemiGlobal.SemiGlobalMatching.ComputeCostPixel | Modules/Libs/Shared/DenseCloud/SemiGlobalMatching.cpp:178-200 | pixel (i, j) writes exactly its D entries starting at i·W·D + j·D; every other entry is unchanged |
| SemiGlobal.SemiGlobalMatching.ComputeCostEntry | Modules/Libs/Shared/DenseCloud/SemiGlobalMatching.cpp:180-198 | the innermost body writes only entry i·W·D + j·D + (d - min_disparity), with the CostVolume value |
| MatchingCost.CostVolumeAt | Modules/Libs/Shared/DenseCloud/SemiGlobalMatching.cpp:181-198 | the entry at the source's index i·W·D + j·D + (d - min) is in bounds. It is 127 when j - d is outside [0, W). Otherwise it is the Hamming distance between left code i·W + j and right code i·W + j - d, and that right index is in bounds. It is never above 127 |
| MatchingCost.CostVolumeEntry | Modules/Libs/Shared/DenseCloud/SemiGlobalMatching.cpp:181-198 | the entry at (i·W + j)·D + (d - min) is in bounds and holds the cost of pixel (i, j) at disparity d |
| MatchingCost.Hamming | Modules/Libs/Shared/DenseCloud/SemiGlobalMatching.cpp:192-197 | the census distance is at most the code width, 32 or 64 bits |
| SgmTypes.VolumeIndex | Modules/Libs/Shared/DenseCloud/SemiGlobalMatching.cpp:181 | i·W·D + j·D + k equals (i·W + j)·D + k, lies in [0, W·H·D), and decodes back to pixel index i·W + j and offset k |
| SgmTypes.FlatInRange | Modules/Libs/Shared/DenseCloud/SemiGlobalMatching.cpp:188-190 | the index i·W + j of an image pixel is in [0, W·H) and decodes back to (i, j) |
| SgmTypes.SameRow | Modules/Libs/Shared/DenseCloud/SemiGlobalMatching.cpp:444 | a column inside [0, W) on the row of an image index addresses a pixel of the map |
| SemiGlobal.SemiGlobalMatching.AggregatePath | Modules/Libs/Shared/DenseCloud/SemiGlobalMatching.cpp:228-244 | aggregation along path k fills row k of the directional volumes and leaves the seven other rows as they were |
| SemiGlobal.SemiGlobalMatching.CostAggregation | Modules/Libs/Shared/DenseCloud/SemiGlobalMatching.cpp:204-255 | paths 1-4 run for 4 or 8 paths and paths 5-8 run for 8 only. The summed volume then equals AggregatedCost, which is the sum of those paths, or the previous contents for any other path count |
| SemiGlobal.SemiGlobalMatching.SumPaths | Modules/Libs/Shared/DenseCloud/SemiGlobalMatching.cpp:246-254 | the summation loop writes each entry as the four-path sum, plus the other four paths when there are 8; entries stay at most 8·255 |
| SemiGlobal.AggregatedCostSum | Modules/Libs/Shared/DenseCloud/SemiGlobalMatching.cpp:247-254 | the two statements of the loop body compute the four-path and eight-path totals; these are at most 4·255 and 8·255, so they fit in the uint16 volume |
| SemiGlobal.PathTotal | Modules/Libs/Shared/DenseCloud/SemiGlobalMatching.cpp:249-252 | a sum of n u8 path costs is at most n·255 |
| SemiGlobal.SemiGlobalMatching.ComputeDisparity | Modules/Libs/Shared/DenseCloud/SemiGlobalMatching.cpp:257-330 | the left map equals LeftDisparityMap: each pixel gets DisparityOf its own D aggregated costs |
| SemiGlobal.SemiGlobalMatching.ComputeDisparityRow | Modules/Libs/Shared/DenseCloud/SemiGlobalMatching.cpp:280-329 | after row i the left map agrees with LeftDisparityMap on rows 0..i |
| SemiGlobal.SemiGlobalMatching.ComputeDisparityPixel | Modules/Libs/Shared/DenseCloud/SemiGlobalMatching.cpp:281-328 | pixel i·W + j receives its disparity; every other pixel is unchanged |
| SemiGlobal.SemiGlobalMatching.LeftPixelDisparity | Modules/Libs/Shared/DenseCloud/SemiGlobalMatching.cpp:287-327 | the costs read at i·W·D + j·D + d_idx are the pixel's own slice, and the result is that pixel of LeftDisparityMap |
| DisparitySelection.MinOf | Modules/Libs/Shared/DenseCloud/SemiGlobalMatching.cpp:287-294 | the minimum is attained and no cost is smaller |
| DisparitySelection.FirstMinIndex | Modules/Libs/Shared/DenseCloud/SemiGlobalMatching.cpp:287-294 | the chosen index attains the minimum and every earlier cost is strictly larger (the strict `>` update) |
| DisparitySelection.SecondMin | Modules/Libs/Shared/DenseCloud/SemiGlobalMatching.cpp:296-305 | the second scan's result is at most UINT16_MAX and at most every cost but the skipped one; unless it is UINT16_MAX, some other cost attains it |
| DisparitySelection.ScanBest | Modules/Libs/Shared/DenseCloud/SemiGlobalMatching.cpp:282-294 | the first scan ends with min_cost the minimum cost. best_disparity is min_disparity plus the first index reaching it, or 0 when no cost is below UINT16_MAX |
| DisparitySelection.ScanSecondMin | Modules/Libs/Shared/DenseCloud/SemiGlobalMatching.cpp:296-305 | the second scan computes the smallest cost over every disparity except best_disparity, starting from UINT16_MAX |
| DisparitySelection.PixelDisparity | Modules/Libs/Shared/DenseCloud/SemiGlobalMatching.cpp:282-327 | the per-pixel body (two scans, uniqueness test, boundary rejection, fit) yields DisparityOf the cost vector |
| DisparitySelection.ChoiceIsFirstMinimum | Modules/Libs/Shared/DenseCloud/SemiGlobalMatching.cpp:287-294 | a surviving disparity sits at the smallest index of minimal cost: every earlier cost is larger, no cost is smaller, and the cost is below UINT16_MAX |
| DisparitySelection.BoundaryRejected | Modules/Libs/Shared/DenseCloud/SemiGlobalMatching.cpp:315-319 | a first minimum at min_disparity or at max_disparity - 1 makes the pixel Invalid |
| DisparitySelection.TieRejected | Modules/Libs/Shared/DenseCloud/SemiGlobalMatching.cpp:307-312 | with the uniqueness check on and a ratio in [0, 1], an exact tie with another disparity makes the pixel Invalid |
| DisparitySelection.ThresholdNonNegative | Modules/Libs/Shared/DenseCloud/SemiGlobalMatching.cpp:309 | for a ratio of at most 1 the uniqueness threshold trunc(min·(1 - ratio)) is non-negative |
| DisparitySelection.SubpixelWithinHalf | Modules/Libs/Shared/DenseCloud/SemiGlobalMatching.cpp:320-327 | when both neighbour costs are at least the minimum, (c1 - c2) / (2·max(1, c1 + c2 - 2·min)) lies in [-0.5, 0.5] |
| DisparitySelection.ValidDisparityBounds | Modules/Libs/Shared/DenseCloud/SemiGlobalMatching.cpp:315-327 | a surviving disparity has a first minimum strictly inside the range. It lies within half a pixel of that minimum, and strictly between min_disparity and max_disparity - 1 |
| SemiGlobal.SemiGlobalMatching.ComputeDisparityRight | Modules/Libs/Shared/DenseCloud/SemiGlobalMatching.cpp:332-414 | the right map equals RightDisparityMap: each pixel gets DisparityOf the costs read from left columns j + d |
| SemiGlobal.SemiGlobalMatching.ComputeDisparityRightRow | Modules/Libs/Shared/DenseCloud/SemiGlobalMatching.cpp:357-413 | after row i the right map agrees with RightDisparityMap on rows 0..i |
| SemiGlobal.SemiGlobalMatching.ComputeDisparityRightPixel | Modules/Libs/Shared/DenseCloud/SemiGlobalMatching.cpp:358-412 | pixel i·W + j receives its right-view disparity; every other pixel is unchanged |
| DisparitySelection.OutsideNeverChosen | Modules/Libs/Shared/DenseCloud/SemiGlobalMatching.cpp:364-377 | when some cost is below UINT16_MAX, the chosen disparity's left column j + d is inside the image |
| SemiGlobal.SemiGlobalMatching.LRCheck | Modules/Libs/Shared/DenseCloud/SemiGlobalMatching.cpp:416-479 | the lists are cleared, then every pixel is visited once in row-major order. The final left map and lists equal LRFinal of the original maps |
| SemiGlobal.SemiGlobalMatching.LRCheckPixel | Modules/Libs/Shared/DenseCloud/SemiGlobalMatching.cpp:431-477 | visiting pixel (i, j) performs one LRStep. A kept pixel changes nothing. A rejected pixel is appended to exactly one list and set Invalid |
| SemiGlobal.SemiGlobalMatching.PixelVerdict | Modules/Libs/Shared/DenseCloud/SemiGlobalMatching.cpp:433-476 | the loop body's tests reach LRVerdict of pixel i·W + j, reading the left map as earlier iterations left it |
| ConsistencyCheck.LRRunInvariant | Modules/Libs/Shared/DenseCloud/SemiGlobalMatching.cpp:430-478 | after n pixels the map beyond n is untouched, the lists hold visited image pixels in ascending order, and every visited pixel is listed and valued exactly as its verdict says |
| ConsistencyCheck.LRStepPreserves | Modules/Libs/Shared/DenseCloud/SemiGlobalMatching.cpp:431-477 | one more pixel keeps that invariant |
| ConsistencyCheck.LRListsAscending | Modules/Libs/Shared/DenseCloud/SemiGlobalMatching.cpp:426-478 | both final lists hold image pixels in strictly ascending row-major order, so neither has duplicates |
| ConsistencyCheck.LRDisjoint | Modules/Libs/Shared/DenseCloud/SemiGlobalMatching.cpp:434-476 | no pixel is both an occlusion and a mismatch |
| ConsistencyCheck.LRListedOrKept | Modules/Libs/Shared/DenseCloud/SemiGlobalMatching.cpp:433-476 | a listed pixel ends Invalid. A pixel is unlisted exactly when it is Consistent: it had a disparity, its right column is inside the row, and the right disparity there is valid and within the threshold. An unlisted pixel keeps its value |
| ConsistencyCheck.LRInvalidIsMismatch | Modules/Libs/Shared/DenseCloud/SemiGlobalMatching.cpp:434-437 | a pixel that was already Invalid ends in the mismatch list |
| ConsistencyCheck.VerdictKeep | Modules/Libs/Shared/DenseCloud/SemiGlobalMatching.cpp:440-447 | on a pixel still holding its original value, the verdict is Keep exactly when the pixel is Consistent; an Invalid pixel is a mismatch |
| ConsistencyCheck.VerdictOcclusion | Modules/Libs/Shared/DenseCloud/SemiGlobalMatching.cpp:447-463 | an Occlusion verdict means the pixel failed the comparison against a valid right disparity, col_rl is strictly inside (0, W), and the left map there exceeds the pixel's disparity |
| ConsistencyCheck.LROcclusionWitness | Modules/Libs/Shared/DenseCloud/SemiGlobalMatching.cpp:447-463 | every final occlusion has that witness, read from the left map as the loop had left it on reaching the pixel |
| SemiGlobal.SemiGlobalMatching.RemoveSpeckles | Modules/Libs/Shared/DenseCloud/SemiGlobalMatching.cpp:130-133 | the left map becomes the speckle-removal result (tolerance 1, min_speckle_aera) of the map as it was |
| SemiGlobal.SemiGlobalMatching.MedianFilter | Modules/Libs/Shared/DenseCloud/SemiGlobalMatching.cpp:140-141 | the left map becomes the 3 x 3 median of the map as it was |
| SemiGlobal.SemiGlobalMatching.FillHolesInDispMap | Modules/Libs/Shared/DenseCloud/SemiGlobalMatching.cpp:481-573 | the three passes leave the left map and the mismatch list equal to FillHoles, and keep the occlusion list and all buffers |
| SemiGlobal.SemiGlobalMatching.FillHolesPass | Modules/Libs/Shared/DenseCloud/SemiGlobalMatching.cpp:497-572 | pass k performs FillStep. It targets occlusions in pass 0 and mismatches afterwards, and an empty list skips the pass. Pass 2 first replaces the mismatch list by the Invalid pixels. The angle-table switch carries over between passes |
| SemiGlobal.SemiGlobalMatching.InvalidScan | Modules/Libs/Shared/DenseCloud/SemiGlobalMatching.cpp:505-513 | inv_pixels equals InvalidPixels of the map, in row-major order |
| HoleFilling.InvalidPrefixExact | Modules/Libs/Shared/DenseCloud/SemiGlobalMatching.cpp:505-513 | that list holds a pixel exactly when it is Invalid, in strictly ascending row-major order |
| SemiGlobal.SemiGlobalMatching.ComputeFills | Modules/Libs/Shared/DenseCloud/SemiGlobalMatching.cpp:517-565 | fill_disps holds one value per target, FillValue of each, all computed from the map as it stood before the pass |
| SemiGlobal.SemiGlobalMatching.TargetFill | Modules/Libs/Shared/DenseCloud/SemiGlobalMatching.cpp:519-564 | the value for one target is FillValue, whichever angle table is in force |
| SemiGlobal.SemiGlobalMatching.CollectCandidates | Modules/Libs/Shared/DenseCloud/SemiGlobalMatching.cpp:528-545 | disp_collects is Candidates: each ray's first valid disparity, in table order |
| SemiGlobal.SemiGlobalMatching.ScanRay | Modules/Libs/Shared/DenseCloud/SemiGlobalMatching.cpp:533-544 | the search loop along one ray yields RayFrom at step 1 |
| HoleFilling.RayFromFirstValid | Modules/Libs/Shared/DenseCloud/SemiGlobalMatching.cpp:533-544 | a found value is the disparity at some step below max_search_length, and every earlier step is inside the image and Invalid |
| HoleFilling.DiagRounds | Modules/Libs/Shared/DenseCloud/SemiGlobalMatching.cpp:534-535 | the diagonal offset lround(m·sin(pi/4)) is the integer n with (2n - 1)^2 < 2m^2 < (2n + 1)^2 |
| HoleFilling.TablesAgree | Modules/Libs/Shared/DenseCloud/SemiGlobalMatching.cpp:490-491 | angle1 and angle2 collect the same candidates, up to order |
| HoleFilling.FillValueEitherTable | Modules/Libs/Shared/DenseCloud/SemiGlobalMatching.cpp:523-564 | the sticky switch to angle2 at row height/2 never changes a fill value |
| HoleFilling.Sort | Modules/Libs/Shared/DenseCloud/SemiGlobalMatching.cpp:550 | the candidates are sorted ascending and are a permutation of the collected ones |
| HoleFilling.SortedUnique | Modules/Libs/Shared/DenseCloud/SemiGlobalMatching.cpp:550 | two sorted sequences with the same elements are equal, so the sorted order does not depend on collection order |
| HoleFilling.SelectIndex | Modules/Libs/Shared/DenseCloud/SemiGlobalMatching.cpp:554-564 | the index picked (1, or 0 for a single candidate, in pass 0; size/2 later) is inside the candidates |
| HoleFilling.FillValueRank | Modules/Libs/Shared/DenseCloud/SemiGlobalMatching.cpp:546-564 | with no candidates the fill value is 0.0. Otherwise it is one of the candidates, and its rank is the pass's index: the second smallest, or the only one, in pass 0, and the upper median later |
| SemiGlobal.SemiGlobalMatching.WriteFills | Modules/Libs/Shared/DenseCloud/SemiGlobalMatching.cpp:566-571 | the second loop writes value n to target n in list order: the map becomes WriteAll of the old map |
| HoleFilling.WriteAllAt | Modules/Libs/Shared/DenseCloud/SemiGlobalMatching.cpp:566-571 | a pixel no target names keeps its value; a named pixel holds the value of the last target naming it |
| HoleFilling.FillPassMisses | Modules/Libs/Shared/DenseCloud/SemiGlobalMatching.cpp:566-571 | a pass leaves every pixel outside its target list as it was |
| HoleFilling.FillStepKeeps | Modules/Libs/Shared/DenseCloud/SemiGlobalMatching.cpp:497-572 | a valid pixel outside the pass's target list keeps its disparity through that pass |
| HoleFilling.FillHolesKeepsUnlisted | Modules/Libs/Shared/DenseCloud/SemiGlobalMatching.cpp:497-572 | a valid pixel in neither list keeps its disparity through all three passes |
| HoleFilling.FirstPassesKeepList | Modules/Libs/Shared/DenseCloud/SemiGlobalMatching.cpp:497-515 | passes 0 and 1 leave the mismatch list as it was |
| HoleFilling.FillHolesLeavesNoInvalid | Modules/Libs/Shared/DenseCloud/SemiGlobalMatching.cpp:497-572 | with a non-empty mismatch list, no pixel is Invalid after the three passes; a pixel without candidates gets 0.0 |
| HoleFilling.LastPassFillsAll | Modules/Libs/Shared/DenseCloud/SemiGlobalMatching.cpp:505-571 | pass 2 over every Invalid pixel leaves none |
| HoleFilling.Pass2BufferOverrun | Modules/Libs/Shared/DenseCloud/SemiGlobalMatching.cpp:503-514 | as written, a 3 x 1 all-Invalid map with one mismatch and no occlusions reaches pass 2 with more Invalid pixels than fill_disps has entries |
| SemiGlobal.SemiGlobalMatching.Release | Modules/Libs/Shared/DenseCloud/SemiGlobalMatching.cpp:575-592 | every buffer is deleted (left empty). Size, options, pixel lists, the image references and the initialised flag are kept |
| SemiGlobal.SemiGlobalMatching.ReleaseCensus | Modules/Libs/Shared/DenseCloud/SemiGlobalMatching.cpp:578-579 | both census buffers are deleted |
| SemiGlobal.SemiGlobalMatching.ReleaseVolumes | Modules/Libs/Shared/DenseCloud/SemiGlobalMatching.cpp:580-591 | the cost volumes and both maps are deleted |
| DisparitySelection.BestAsWritten | Modules/Libs/Shared/DenseCloud/SemiGlobalMatching.cpp:359-373 | whenever some cost is below UINT16_MAX, the source's best_disparity is min_disparity plus the first index of minimal cost |
| DisparitySelection.NoCandidateIndexOutside | Modules/Libs/Shared/DenseCloud/SemiGlobalMatching.cpp:359-411 | a right pixel whose every left column j + d is outside the image keeps best_disparity 0. When 0 is not a disparity of the range, the fit indices best - 1 - min and best + 1 - min are not both inside [0, D). The corrected choice rejects the pixel |
| DisparitySelection.StoredDenom | Modules/Libs/Shared/DenseCloud/SemiGlobalMatching.cpp:410 | the uint16 denominator equals max(1, c1 + c2 - 2·min) whenever that fits in 16 bits |
| DisparitySelection.DenomFitsForBoundedCosts | Modules/Libs/Shared/DenseCloud/SemiGlobalMatching.cpp:326-327 | with costs of at most 8·255 the uint16 denominator does not wrap, and the source's fit equals the model's |
| DisparitySelection.DenomWrapCounterexample | Modules/Libs/Shared/DenseCloud/SemiGlobalMatching.cpp:404-411 | in the right view a UINT16_MAX neighbour cost wraps the denominator to 4, and the source's fit is -8189.25 where the corrected fit stays within half a pixel of disparity 2 |

## Left out

- Timing, `printf` and the final `memcpy` of `Match` are left out. The copy is modelled as the output being the left map.
- The `sgm_util` routines (census transforms, the eight path aggregations, Hamming32/Hamming64, RemoveSpeckles, MedianFilter) are not modelled by body. The routines other than Hamming are the per-index functions of `Externals`. Hamming is modelled as the count of differing bits.
- CostAggregation's `assert(max_disparity > min_disparity)` and the early returns on `disp_range <= 0` and `size <= 0` are not modelled. They fire when the range is empty, or when the width or height is zero after a failed second `Initialize`. `Match`'s precondition excludes both states (see the `Match` line).
- Negative widths or heights are excluded by `Initialize`'s precondition. In the source, exactly one negative dimension reaches `new[]` with a negative size. Two negative dimensions give positive sizes, so every allocation succeeds and `Initialize` returns true with a negative width and height.
- The `sint32` products W·H and W·H·D are unbounded integers in the model, so their overflow is not modelled.
- Allocation failure is left out. `new[]` either succeeds or throws, so the flag test at line 74 is always true in the model.
- Release: a deleted buffer is modelled as an empty array, not as a null pointer.
- Float precision of disparities, of the fit and of `min_cost * (1 - uniqueness_ratio)` is left out: all are exact reals.
- UniquenessThreshold: the conversion `static_cast<uint16>` is modelled as truncation toward zero. That matches for ratios up to 1; for a ratio above 1 the C++ conversion of a negative value is undefined.
- The value of `Invalid_Float` is not visible. The sentinel is modelled as exceeding every disparity. So an Invalid right disparity always fails the threshold test. Its `col_rl` is then taken to be outside the image, making the pixel a mismatch.
- The ray offsets are modelled exactly: 0, ±m, or the integer nearest to m/√2. The float `sin`, `cos` and `lround` of `3.1415926f` could differ from this only for very long rays.
- `Initialize` allocates the census buffers as `uint32` or `uint64` words. The model uses one buffer of natural numbers for both, and the code width enters through `CensusBits`.
- Pixels the hole filling finds no candidate for get 0.0. This matches the source: `fill_disps` starts at 0.0 and is written back unconditionally.
- Some loops are split into helper methods: the row and pixel loops of ComputeCost, ComputeDisparity and ComputeDisparityRight; the pixel body of LRCheck; the ray loop and the passes of FillHolesInDispMap. Each helper keeps the source's order of reads and writes.

- Match: the precondition `Valid()` requires an initialised matcher to have buffers sized for its current width, height and range, and pixel lists inside its image. The source checks only the flag (lines 81-86), and three reachable states pass that check with this condition false. The model does not say what `Match` does in them:
  (a) a second `Initialize` with max_disparity <= min_disparity stores the new size and options, replaces the census buffers and returns false at lines 53-55 with the flag still set. `Match` then runs with the early returns of ComputeCost, CostAggregation, ComputeDisparity and ComputeDisparityRight taken. The later stages work on the old maps and lists, which are out of bounds when the new image is larger. A second `Initialize` with a zero width or height also returns false with the flag set, and `Match` then runs over an empty image;
  (b) after `Release` (lines 575-592) the flag stays set, and `Match` writes through deleted buffers;
  (c) a successful second `Initialize` to a smaller image keeps the old occlusion and mismatch lists (lines 28-77 never clear them). With the left/right check off and hole filling on, `Match` indexes the new map with pixels outside it.
  `Initialize` and `Release` reach these states in the model too: `Initialize` keeps the flag on failure, and `Release` keeps it while emptying every buffer.
- ComputeDisparityRight: the right map is `RightDisparityMap`, built on the corrected per-pixel choice `DisparityOf`. At a right pixel whose chosen disparity has a neighbour column outside the image, line 410 stores the denominator in a uint16 (`StoredDenom`). It can wrap there: with that neighbour at UINT16_MAX it wraps when the other neighbour's cost exceeds twice the minimum cost, and the source's value then differs (`DenomWrapCounterexample`). Otherwise the stored denominator fits and the source agrees with the model. At a right pixel with no column inside the image, the source keeps best_disparity 0 and fits from out-of-range entries (`NoCandidateIndexOutside`), where the model stores Invalid. The same holds for ComputeDisparityRightRow and ComputeDisparityRightPixel, and for the left/right check that reads this map. See "Findings".

## Findings

| source | as written | input that shows it | evidently intended | confidence | as-written member | corrected member |
|---|---|---|---|---|---|---|
| Modules/Libs/Shared/DenseCloud/SemiGlobalMatching.cpp:410 | the right view stores max(1, c1 + c2 - 2·min) in a uint16; with one neighbour cost at UINT16_MAX (a column outside the image), it wraps when the other neighbour's cost exceeds twice the minimum cost | width 10, disparities [0, 4), right pixel (0, 7) with costs [10, 5, 0, 65535]: the denominator wraps to 4 and the stored disparity is -8189.25 | an unwrapped denominator, giving a disparity within half a pixel of 2 | not executed | DisparitySelection.DenomWrapCounterexample | DisparitySelection.ValidDisparityBounds |
| Modules/Libs/Shared/DenseCloud/SemiGlobalMatching.cpp:359-411 | when no left column j + d is inside the image, best_disparity stays 0; when 0 is not a disparity of the range, it is not a boundary either, and the fit indices -1 - min_disparity and 1 - min_disparity are not both inside [0, D), so the fit reads outside cost_local | min_disparity 1, max_disparity 3, width 4, right pixel (0, 3), uniqueness check off | reject a pixel with no candidate disparity | not executed | DisparitySelection.NoCandidateIndexOutside | DisparitySelection.ChoiceIsFirstMinimum |
| Modules/Libs/Shared/DenseCloud/SemiGlobalMatching.cpp:503-514 | fill_disps is sized by the mismatch list before pass 2 replaces that list by every Invalid pixel, so pass 2 writes past its end | 3 x 1 map, every pixel Invalid, no occlusions, one mismatch (0, 0): pass 2 has two targets for one slot | size the buffer by the final target list | not executed | HoleFilling.Pass2BufferOverrun | SemiGlobal.SemiGlobalMatching.FillHolesPass |
