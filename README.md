# Hecate frame filtering, shot segmentation and thumbnail selection in Dafny

This project models the discrete core of the Hecate thumbnail pipeline:

- The per-frame records of `parse_frame_info`.
- The stages that invalidate and flag frames in place:
  - `filter_low_quality` (DARK, BLUR, UNIFORM);
  - the CUT and ECR flagging of `filter_transition`;
  - the gradual-transition split of `post_process` with `sbd_heuristic` ([GFL]);
  - the shot collection of `update_shot_range` (SHORT).
- The spatial-pyramid histogram layout of `calc_pyr_color_hist`, `calc_pyr_edge_hist` and `extract_histo_features`.
- The thumbnail choice of `detect_thumbnail_frames`.
- The helpers `reorder` and `hecate_sort`.

The pixel measures come from OpenCV and are inputs here:

- brightness, sharpness and uniformity of a frame;
- the frame-difference norms, the frame area and the edge change ratios;
- the histogram of every patch.

Modules:

- `Sorting`: Python's stable `sorted(..., key=...)` as an argsort.
- `Frames`: the records, the flag reasons, and marks.
  - A mark is "set `valid` to False and append a reason".
  - `ApplyMarks` applies a list of marks.
  - Every stage method is proved to leave `info[..] == ApplyMarks(old(info[..]), <marks of that stage>)`.
  - The marks themselves are described by lemmas.
- `Quality`: `filter_low_quality` and the flagging part of `filter_transition`.
- `ShotBoundary`: `sbd_heuristic` and `post_process`.
- `Shots`: `Range`/`ShotRange` and `update_shot_range`.
- `Pyramid`: the patch count, the patch rectangles, the filling of the histogram buffer and the feature matrix.
- `Func`: `reorder` and `hecate_sort`.
- `Thumbnails`: `detect_thumbnail_frames`, which writes into a caller-supplied list (the class `ThumbList`).
- `Pipeline`: the stage order of the script at the end of `video_parser.py`.

## Model

| member | source | states |
|---|---|---|
| Sorting.ArgSort | video_parser.py:209-211 | a stable `sorted` by key: the result lists every position 0..n-1 once, ordered by key and, among equal keys, by original position |
| Sorting.SortedDistinct | video_parser.py:209-211 | a stably sorted list of positions names no position twice |
| Frames.Mark | video_parser.py:213-215 | invalidating frame p with a reason clears its `valid`, appends the reason to its flag and keeps its id and metrics |
| Frames.MarkElsewhere | video_parser.py:213-215 | a mark leaves every other record as it was |
| Frames.MarkFrame | video_parser.py:213-215 | the in-place update of one record of the array is that mark |
| Frames.FlagTextAppend | video_parser.py:215 | the flag string of a list of reasons appended to another is the concatenation of the two strings (`flag += "DARK "`) |
| Frames.ApplyMarksAt | video_parser.py:213-221 | after a list of marks a frame is valid exactly when it was valid and no mark names it; its flag is its old flag followed by the reasons aimed at it, in order; its id and metrics are unchanged |
| Frames.ApplyMarksConcat | video_parser.py:411-417 | two successive stages equal one stage with the concatenated marks |
| Frames.ApplyMarksMonotone | video_parser.py:213-221 | a stage never makes a frame valid again, only appends to flags, never changes id or metrics, and keeps "invalid exactly when flagged" |
| Frames.TagsForEmpty | video_parser.py:213-221 | a frame gets no reason exactly when no mark names it |
| Frames.Initial | video_parser.py:367-383 | the records of `parse_frame_info`: one per frame, the record of frame p having id p and the metrics of frame p |
| Frames.ParseFrameInfo | video_parser.py:367-383 | one record per frame, with id equal to its index, the given metrics, `valid = True` and an empty flag |
| Frames.InitialConsistent | video_parser.py:372-379 | the fresh records are all valid, unflagged, and their ids are their positions |
| Quality.IsDark | video_parser.py:213 | a frame is a DARK candidate exactly when its brightness is below 0.075 |
| Quality.IsBlurred | video_parser.py:216 | a frame is a BLUR candidate exactly when its sharpness is below 0.08 |
| Quality.IsUniform | video_parser.py:219 | a frame is a UNIFORM candidate exactly when its uniformity is above 0.8 |
| Quality.LowQualityRankings | video_parser.py:209-211 | the three orders of `filter_low_quality` (brightness ascending, sharpness ascending, uniformity descending) each have one entry per frame, every entry naming a frame |
| Quality.RankedMarksMeaning | video_parser.py:212-221 | walking the first i entries of a ranking marks exactly the candidates among them, each once |
| Quality.LowQualitySplit | video_parser.py:212-221 | a mark made by the first i iterations of the interleaved loop is exactly a mark of the brightness pass, the sharpness pass or the uniformity pass over their first i ranks |
| Quality.LowQualityCount | video_parser.py:212-221 | the first i steps of the loop give each reason at most i times |
| Quality.LowQualityMarks | video_parser.py:208-221 | the marks `filter_low_quality` makes, in its order: for each i below int(0.15 n), DARK for the i-th darkest frame, then BLUR for the i-th blurriest, then UNIFORM for the i-th most uniform, each only when that frame passes its threshold |
| Quality.LowQualityEffect | video_parser.py:208-221 | a frame gets DARK exactly when it is among the int(0.15 n) darkest and its brightness is below 0.075, likewise BLUR and UNIFORM; no other reason is added; each reason goes to at most int(0.15 n) frames |
| Quality.FilterLowQuality | video_parser.py:208-221 | the in-place loop leaves the records with exactly the marks of `filter_low_quality` applied |
| Quality.DiffSignal | video_parser.py:228-234 | `v_diff` has one entry per frame (two for a single frame) and is 0 at both ends |
| Quality.DiffOf | video_parser.py:228-234 | the loop that builds `v_diff` yields that signal |
| Quality.CutRanking | video_parser.py:260 | the CUT order (largest `v_diff` first, stable) has one entry per record, each naming a record |
| Quality.EcrRanking | video_parser.py:267 | the ECR order (smallest `v_ecr` first, stable) has one entry per record, each naming a record |
| Quality.TransitionMarks | video_parser.py:259-271 | the marks `filter_transition` makes, in its order: CUT for each of the first int(0.1 n) frames by decreasing `v_diff` whose `v_diff` is at least 0.5, then ECR for each of the first int(0.1 n) frames by increasing `v_ecr` whose `v_ecr` is at least threshold[1] |
| Quality.TransitionEffect | video_parser.py:259-271 | a frame gets CUT exactly when it is among the int(0.1 n) largest-`v_diff` frames and its `v_diff` is at least 0.5; it gets ECR exactly when it is among the int(0.1 n) smallest-`v_ecr` frames and its `v_ecr` is at least 0; no other reason; each reason goes to at most int(0.1 n) frames |
| Quality.EndsNeverCut | video_parser.py:228-264 | with at least two frames, the first and the last frame are never marked CUT |
| Quality.ThresholdPass | video_parser.py:261-271 | each flagging loop (CUT on v_diff, ECR on v_ecr) applies exactly the marks of its pass: the first q ranked frames whose value reaches the threshold |
| Quality.FilterTransition | video_parser.py:224-273 | an empty video raises IndexError and changes nothing; otherwise the result is (`v_diff`, `v_ecr`) and the records carry exactly the CUT marks followed by the ECR marks |
| ShotBoundary.Accepts | video_parser.py:330-338 | a candidate c is accepted exactly when c >= min_shot_len-1 and len(v_diff)-c >= min_shot_len, and abs(c-j) >= min_shot_len-1 (the span from j to c, counted inclusively, is at least min_shot_len) for every earlier jump j |
| ShotBoundary.SbdLoop | video_parser.py:329-342 | the backward walk with its early stop yields the greedy choice over the stable ascending order of `v_diff` |
| ShotBoundary.Sbd | video_parser.py:323-343 | the jumps `sbd_heuristic` returns: positions taken from the largest `v_diff` down (the stable ascending order read back to front), each kept when it has min_shot_len-1 frames before it, min_shot_len frames from it to the end, and lies min_shot_len-1 or more frames from every jump kept earlier; the walk stops once njumps are kept |
| ShotBoundary.SbdHeuristic | video_parser.py:323-343 | `sbd_heuristic` returns that greedy choice |
| ShotBoundary.GreedyInvariantHolds | video_parser.py:329-342 | after any number of steps the accepted jumps are spaced, counted against njumps, and every rejected candidate was inadmissible |
| ShotBoundary.SbdSpread | video_parser.py:323-343 | every jump j satisfies min_shot_len-1 <= j <= len(v_diff)-min_shot_len; any two a, b satisfy abs(a-b) >= min_shot_len-1 (span counted inclusively); there are at most njumps of them (njumps >= 1); they come in non-increasing `v_diff` order, with the higher index first on ties |
| ShotBoundary.SbdMaximal | video_parser.py:329-342 | unless njumps jumps were found, every position is a jump or is inadmissible |
| ShotBoundary.PySlice | video_parser.py:312 | Python's `X_diff[start:end+1]` clamps at the end of the list |
| ShotBoundary.SegmentMarks | video_parser.py:307-317 | the [GFL] marks of a stretch from s to closing frame e lie each inside [s+msl-2, e-msl], and any two a, b satisfy abs(a-b) >= min_shot_len-1 (span counted inclusively) |
| ShotBoundary.SegmentMarksCount | video_parser.py:311-313 | a stretch from s to closing frame e gets at most (e-s+1)//min_shot_len [GFL] marks, the njumps it passes to sbd_heuristic |
| ShotBoundary.ShortSegmentUnmarked | video_parser.py:309-310 | a stretch whose length e-s+1 (counting the closing frame) is below 3·min_shot_len gets no [GFL] mark |
| ShotBoundary.GflSpread | video_parser.py:311-317 | the marks at `start_idx + jump[k] - 1` inherit the spread of the jumps |
| ShotBoundary.MarkJumps | video_parser.py:315-317 | the inner loop applies one [GFL] mark per jump |
| ShotBoundary.PostUpTo | video_parser.py:304-320 | the loop state of `post_process` (`start_idx`, [GFL] marks so far) after frames 0..i-1: `start_idx` is -1 or below i, and every mark lies more than min_shot_len frames before i |
| ShotBoundary.PostNext | video_parser.py:305-320 | one iteration over frame j: a valid frame opens a stretch when none is open; an invalid frame or the last frame closes the open stretch, adds that stretch's [GFL] marks and resets `start_idx` to -1 |
| ShotBoundary.PostMarks | video_parser.py:298-320 | all [GFL] marks of `post_process`, in the order it makes them |
| ShotBoundary.PostProcess | video_parser.py:298-320 | the in-place scan applies exactly the [GFL] marks of `post_process` |
| ShotBoundary.PostInvariantHolds | video_parser.py:304-320 | the scan keeps `start_idx` at the start of the current valid stretch and all marks so far spaced and inside closed stretches |
| ShotBoundary.GflEffect | video_parser.py:304-317 | every [GFL] frame was valid, lies inside its stretch of valid frames with min_shot_len-2 valid frames before it and min_shot_len-1 after it, and any two a, b satisfy abs(a-b) >= min_shot_len-1 (span counted inclusively; so none is marked twice) |
| Shots.Range.Length | video_parser.py:25-26 | `length()` counts both ends: end - start + 1 |
| Shots.ShotRange.Length | video_parser.py:25-31 | a `ShotRange` inherits `length()` from `Range`: end - start + 1 |
| Shots.RunStart | video_parser.py:349-355 | the first frame of the maximal valid stretch holding a valid frame |
| Shots.RunEnd | video_parser.py:349-355 | the last frame of the maximal valid stretch holding a valid frame |
| Shots.ShortMarks | video_parser.py:360-362 | one SHORT mark for each frame sb0..sb1 |
| Shots.MarkShort | video_parser.py:360-362 | the inner loop applies those SHORT marks |
| Shots.ShotsInvariant | video_parser.py:349-363 | the scan keeps (sb0, sb1) on the open stretch and the closed ranges and SHORT marks correct up to the cursor |
| Shots.RangesUpTo | video_parser.py:346-363 | the loop state of `update_shot_range` (sb0, sb1, ranges, SHORT marks) after frames 0..i-1: sb0 and sb1 are both -1 or 0 <= sb0 <= sb1 < i, and every SHORT mark names a frame below i |
| Shots.RangesNext | video_parser.py:350-363 | one iteration over frame j: a valid frame opens or extends the stretch; an invalid frame or the last frame closes an open stretch, keeping it as a range when longer than min_shot_len and marking its frames SHORT otherwise |
| Shots.ShotRanges | video_parser.py:346-364 | the list of ranges `update_shot_range` returns |
| Shots.ShortMarksOf | video_parser.py:357-362 | the SHORT marks `update_shot_range` makes, in its order |
| Shots.UpdateShotRange | video_parser.py:346-364 | the in-place scan returns the ranges of `update_shot_range` and applies exactly its SHORT marks |
| Shots.ShotRangesEffect | video_parser.py:346-364 | each range is a maximal stretch of valid frames longer than min_shot_len (`length()` = end-start+1); the ranges are in order with a frame between consecutive ones; a valid frame is in a range exactly when its stretch is longer than min_shot_len; SHORT goes exactly to the valid frames of shorter stretches |
| Shots.ValidExactlyInRanges | video_parser.py:346-364 | afterwards a frame is valid exactly when it lies in one of the returned ranges |
| Pyramid.CountPatches | video_parser.py:131-133 | the loop computes npatches = sum of 4^i for i < level |
| Pyramid.NPatchesClosedForm | video_parser.py:131-133 | 3·npatches + 1 = 4^level |
| Pyramid.PatchRects | video_parser.py:140-147 | the patches are enumerated level by level, x outer, y inner; there are npatches of them |
| Pyramid.CellInside | video_parser.py:143-147 | the patch (x, y) of a 2^l grid, x·floor(w/2^l) + floor(w/2^l) <= w and likewise for h, fits in the image |
| Pyramid.PatchesInside | video_parser.py:140-147 | every patch rectangle of every level fits in the image |
| Pyramid.ColumnsDisjoint | video_parser.py:140-147 | two different patches of one level do not overlap |
| Pyramid.BlocksLayout | video_parser.py:149 | block p of the concatenated histograms occupies exactly [hist_sz·p, hist_sz·p + hist_sz) |
| Pyramid.PyramidLayout | video_parser.py:135-150 | the buffer has hist_sz·npatches entries, and the blocks [hist_sz·p, hist_sz·p+hist_sz) for p < npatches hold the histogram of patch p, so they tile it without gap or overlap |
| Pyramid.WriteBlock | video_parser.py:149 | the slice assignment writes the block and leaves the rest of the buffer alone |
| Pyramid.CalcPyrHist | video_parser.py:135-152 | the nested level/x/y loops with a running patch counter fill the fresh buffer with exactly the pyramid layout |
| Pyramid.CalcPyrColorHist | video_parser.py:129-152 | `calc_pyr_color_hist` is the pyramid of HSV histograms of 3·nbins entries each |
| Pyramid.CalcPyrEdgeHist | video_parser.py:155-178 | `calc_pyr_edge_hist` is the pyramid of edge histograms of nbins_ori+nbins_mag entries each |
| Pyramid.ExtractHistoFeatures | video_parser.py:276-295 | one row per frame: unwritten for a skipped frame, otherwise colour pyramid then edge pyramid; IndexError when the info list is shorter than the frame list and filtered frames are omitted |
| Pyramid.FeatureLayout | video_parser.py:283-291 | a row is written exactly when filtering is off or the frame is valid; a written row has npatches·3·nbins_color colour entries followed by npatches·nbins_edge edge entries, each the frame's pyramid |
| Func.Reordered | func.py:5-10 | `reorder(s, m)` has length len(s) |
| Func.Reorder | func.py:5-10 | the loop fills `ordered[i] = s[m[i]]` for every i < len(s) |
| Func.ReorderIdentity | func.py:5-10 | reordering by the identity map gives the list back |
| Func.Identity | func.py:15-17 | the identity map 0..n-1 |
| Func.IdentityMap | func.py:14-17 | the loop builds the identity map |
| Func.HecateSortAsWritten | func.py:19 | as written, `hecate_sort` raises IndexError exactly when the list is non-empty, and returns ([], []) for [] |
| Func.HecateSort | func.py:13-20 | the method as written has that outcome |
| Func.HecateArgSort | func.py:13-20 | the intended `hecate_sort`: the index map is the stable ascending argsort of the values, and the values are read through it |
| Func.ReorderArgSort | func.py:13-20 | the intended index map is a permutation, and the values read through it are in ascending order |
| Func.HecateSortCounterexample | func.py:19 | on [3, 1] the code as written raises, while the intended result is ([1, 3], [1, 0]) |
| Thumbnails.ThumbList.Clear | thumnail_extraction.py:10 | `v_thumb_idx.clear()` empties the caller's list |
| Thumbnails.ThumbList.Append | thumnail_extraction.py:31 | `append` adds one index at the end |
| Thumbnails.PyIndex | thumnail_extraction.py:19 | a Python index -n <= i < n names position i mod n |
| Thumbnails.CountTrue | thumnail_extraction.py:21 | `sum(v_frm_valid)` is at most the list length |
| Thumbnails.CountTrueIsSize | thumnail_extraction.py:21 | `sum` of a boolean list is the number of positions holding True |
| Thumbnails.ValidCount | thumnail_extraction.py:16-21 | `nfrm_valid` is the number of distinct frames named by the shots' `v_idx`, so it is at most nframes |
| Thumbnails.CoveredSnoc | thumnail_extraction.py:19 | setting one more entry flags exactly one more named frame |
| Thumbnails.FillFrameValid | thumnail_extraction.py:16-19 | the nested loops raise IndexError exactly when some key frame index is out of range; otherwise frame k is flagged exactly when some key frame names it |
| Thumbnails.MostStill | thumnail_extraction.py:24-30 | the running (minidx, minval) pair ends below the number of frames scanned |
| Thumbnails.MostStillIsFirstMin | thumnail_extraction.py:24-30 | minidx is the first frame of least diff; it stays -1 exactly when no diff is below the float maximum, which includes nframes = 0 |
| Thumbnails.MostStillFrame | thumnail_extraction.py:24-30 | the loop raises exactly when `diff` is shorter than nframes, and otherwise yields that frame |
| Thumbnails.Longest | thumnail_extraction.py:38-44 | (`max_subshot_id`, `max_subshot_len`) after the sub-shots: the id stays -1 or names a sub-shot |
| Thumbnails.LongestIsFirstMax | thumnail_extraction.py:38-44 | the chosen sub-shot is the first of greatest length (strict `>`); the id stays -1 only when every length is negative |
| Thumbnails.LongestSubShot | thumnail_extraction.py:38-44 | the inner loop yields that choice |
| Thumbnails.ShotKey | thumnail_extraction.py:38-46 | the length and key frame a shot contributes: `v_idx[0]` of the sub-shot at `max_subshot_id`, read with Python's negative indexing; IndexError when that sub-shot does not exist or has no key frame |
| Thumbnails.ShotKeyMeaning | thumnail_extraction.py:37-46 | a shot without sub-shots raises (`v_range[-1]` of an empty list); otherwise it contributes the length and `v_idx[0]` of its first longest sub-shot, raising when that sub-shot has no key frame |
| Thumbnails.CollectShotKeys | thumnail_extraction.py:35-47 | the loop raises exactly when some shot raises, and otherwise yields one length and one key frame per shot, in shot order |
| Thumbnails.DescendingPermutation | thumnail_extraction.py:49-52 | reading the index map back to front names every shot once |
| Thumbnails.DescendingOrder | thumnail_extraction.py:49-52 | read back to front, the shot lengths are non-increasing, and among equal lengths the later shot comes first |
| Thumbnails.RankedOrder | thumnail_extraction.py:49-52 | the appended key frames are those of a permutation of the shots in non-increasing length order |
| Thumbnails.AppendRanked | thumnail_extraction.py:49-52 | the loop appends `v_keyfrm_idx[v_srt_idx[len-1-i]]` for every i, in order |
| Thumbnails.Gathered | thumnail_extraction.py:54-59 | `v_valid_frm_idx` and `v_valid_frm_shotlen`: the first key frame and the length of every sub-shot of every shot, in order; IndexError when some sub-shot has no key frame |
| Thumbnails.GatherSubShots | thumnail_extraction.py:54-59 | the loops raise exactly when a sub-shot has no key frame, and otherwise collect one first key frame and one length per sub-shot, shot by shot |
| Thumbnails.Detect | thumnail_extraction.py:8-59 | what `detect_thumbnail_frames` leaves in `v_thumb_idx`: IndexError when a key frame index is out of range for the nfrm entries of `v_frm_valid`; with nfrm_valid <= 1 the first frame of least `diff` (IndexError when `diff` has fewer than nfrm entries); with nfrm_valid <= njpg one key frame per shot, longest shot first, with the corrected `hecate_sort`; otherwise nothing, after the gathering loops (which may raise) |
| Thumbnails.DetectThumbnailFrames | thumnail_extraction.py:8-59 | the caller's list is cleared; then it holds exactly the chosen indices, or stays empty when the function raises |
| Thumbnails.FallbackPick | thumnail_extraction.py:22-31 | with nfrm_valid <= 1 exactly one index is appended: the first frame of least diff, or -1 when no diff is below the float maximum |
| Thumbnails.RankedPick | thumnail_extraction.py:32-52 | with 1 < nfrm_valid <= njpg and the corrected `hecate_sort`, one key frame per shot is appended, each shot once, in non-increasing length of its longest sub-shot |
| Thumbnails.ClusteringPicksNothing | thumnail_extraction.py:53-59 | with nfrm_valid > njpg nothing is appended, and the call completes exactly when every sub-shot has a key frame |
| Thumbnails.MiddleBranchRaisesAsWritten | thumnail_extraction.py:32-49 | in the middle branch there is at least one shot, so `hecate_sort` gets a non-empty list and, as written, raises |
| Pipeline.Run | video_parser.py:411-417 | the stages run in their script order compute the composed outcome: the final records, `v_diff` and the shot ranges, or IndexError for a video without frames |
| Pipeline.StagesEffect | video_parser.py:411-417 | an empty video raises. Otherwise every final record keeps the id and metrics `parse_frame_info` gave it and is invalid exactly when flagged. A frame is valid exactly when it lies in a returned shot. The shots are inside the video, longer than min_shot_len, in order and apart |

## Left out

- Video decoding (`parse_video`), the `debug_show_*` helpers, the `VideoParser` class, tqdm progress bars and `print`: I/O only.
- The OpenCV measures are inputs, given per frame or per patch:
  - brightness, sharpness and uniformity;
  - the frame-difference norms, the frame area and the edge change ratios that `filter_transition` derives from the pixels;
  - the HSV and edge histograms of each patch.
- `calc_pyr_edge_hist_g` is unused by the pipeline and is not modelled.
- Floating point is modelled as exact reals: float32 storage, rounding and NaN comparisons are not. Because of that:
  - `int(n*0.15)` and `int(n*0.1)` are taken as n·15/100 and n·10/100;
  - `sys.float_info.max` is the exact value (2 - 2^-52)·2^1023.
- ShotBoundary.PostProcess: requires min_shot_len >= 2. With min_shot_len = 1, the mark at `start_idx + jump[k] - 1` can name frame -1, the last frame in Python; that case is not modelled.
- Quality.FilterTransition: takes the frame-difference norms and `v_ecr` as given. The numerics of the ECR computation are not modelled: wrapping uint8 subtraction, Canny/Otsu and dilation.
- Pyramid.ExtractHistoFeatures: an unwritten row of the uninitialised `np.ndarray` is modelled as `Unwritten`, not as its arbitrary memory contents.
- Thumbnails.DetectThumbnailFrames: takes `meta.nframes` as a natural number. A negative value behaves like 0 in Python and is not modelled.
- Thumbnails.DetectThumbnailFrames: `X` and the unused `minK`/`maxK` are not parameters.
- The k-means clustering of the `nfrm_valid > njpg` branch is not written in the source (only a commented `km_data`). The model gathers the sub-shot data and appends nothing.
- Thumbnails.DetectThumbnailFrames: the middle branch is modelled with the corrected `hecate_sort` (Func.HecateArgSort), which makes it append one key frame per shot. Thumbnails.MiddleBranchRaisesAsWritten shows that, as written, this branch always raises.
- Thumbnails.Detect: its middle branch is the one-key-frame-per-shot ranking of the corrected `hecate_sort`, not the IndexError that the code as written raises there; Thumbnails.MiddleBranchRaisesAsWritten states the as-written behaviour.
- Func.HecateSortAsWritten: modelled for the integer lists its one caller passes (shot lengths). A list of floats would raise TypeError instead of IndexError.
- The contents of `v_idx` and `v_range` are inputs to the thumbnail choice. The key-frame and sub-shot steps that fill them are not part of this model.

## Findings

| source | as written | input that shows it | evidently intended | confidence | as-written member | corrected member |
|---|---|---|---|---|---|---|
| func.py:19 | `unsorted.sort(key=lambda index: unsorted[index])` sorts the values, using each value as an index into the list being sorted, which CPython shows as empty during the sort; it raises IndexError for every non-empty list, and `index_map` would stay the identity anyway | `hecate_sort([3, 1])` | sort `index_map` by `unsorted[index]` and return the values read through it: `([1, 3], [1, 0])` | not executed | Func.HecateSortAsWritten | Func.HecateArgSort |
