/** The stage order of the script at the end of video_parser.py: build the
    records, drop low-quality frames, flag cuts and transitions, split
    overlong runs, then collect the shots. */
module Pipeline {
  import opened Frames
  import opened Quality
  import opened ShotBoundary
  import opened Shots

  /** `min_shot_len` of both `post_process` (its default) and the call of
      `update_shot_range`. */
  const MinShotLen: int := 40

  /** The final records, the `v_diff` that `filter_transition` returns and
      the ranges of `update_shot_range`; or the IndexError that
      `frame_list[0]` raises for a video without frames. */
  datatype ParseOutcome = Parsed(recs: seq<FrameInfo>, diff: seq<real>, ranges: seq<ShotRange>) | NoFrames

  /** Marks keep the ids of the records. */
  lemma IdsKept(recs: seq<FrameInfo>, ms: seq<MarkOp>, m: int)
    requires IdsBelow(recs, m)
    ensures IdsBelow(ApplyMarks(recs, ms), m)
    ensures forall p :: 0 <= p < |recs| ==> ApplyMarks(recs, ms)[p].id == recs[p].id
  {
    ApplyMarksMonotone(recs, ms);
  }

  /** The records after each stage. */
  function AfterLowQuality(metrics: seq<Metrics>): (recs: seq<FrameInfo>)
    ensures |recs| == |metrics| && IdsBelow(recs, |metrics|)
  {
    var r0 := Initial(metrics);
    IdsKept(r0, LowQualityMarks(r0), |metrics|);
    ApplyMarks(r0, LowQualityMarks(r0))
  }

  function AfterTransition(metrics: seq<Metrics>, diff: seq<real>, ecr: seq<real>): (recs: seq<FrameInfo>)
    requires |diff| >= |metrics| && |ecr| == |metrics|
    ensures |recs| == |metrics|
  {
    var r1 := AfterLowQuality(metrics);
    ApplyMarks(r1, TransitionMarks(r1, diff, ecr))
  }

  function AfterPostProcess(metrics: seq<Metrics>, diff: seq<real>, ecr: seq<real>): (recs: seq<FrameInfo>)
    requires |diff| >= |metrics| && |ecr| == |metrics|
    ensures |recs| == |metrics|
  {
    var r2 := AfterTransition(metrics, diff, ecr);
    ApplyMarks(r2, PostMarks(r2, diff, MinShotLen))
  }

  /** The outcome of the whole sequence of stages. */
  function Stages(metrics: seq<Metrics>, stepNorm: seq<real>, area: nat, ecr: seq<real>): ParseOutcome
    requires |metrics| >= 1 ==> area > 0 && |stepNorm| == |metrics| - 1
    requires |ecr| == |metrics|
  {
    if |metrics| == 0 then NoFrames
    else
      var diff := DiffSignal(stepNorm, area);
      var r3 := AfterPostProcess(metrics, diff, ecr);
      Parsed(ApplyMarks(r3, ShortMarksOf(r3, MinShotLen)), diff, ShotRanges(r3, MinShotLen))
  }

  /** Lines 411-417 of video_parser.py, with the OpenCV work given:
      `metrics` are the per-frame measures, `stepNorm`, `area` and `ecr`
      what `filter_transition` computes from the pixels. */
  method Run(metrics: seq<Metrics>, stepNorm: seq<real>, area: nat, ecr: seq<real>) returns (res: ParseOutcome)
    requires |metrics| >= 1 ==> area > 0 && |stepNorm| == |metrics| - 1
    requires |ecr| == |metrics|
    ensures res == Stages(metrics, stepNorm, area, ecr)
  {
    var info := ParseFrameInfo(metrics);
    assert info[..] == Initial(metrics);
    FilterLowQuality(info);
    assert info[..] == AfterLowQuality(metrics);
    var t := FilterTransition(info, stepNorm, area, ecr);
    if t.EmptyVideo? {
      return NoFrames;
    }
    assert info[..] == AfterTransition(metrics, t.diff, ecr);
    PostProcess(info, t.diff, MinShotLen);
    var ranges := UpdateShotRange(info, MinShotLen);
    res := Parsed(info[..], t.diff, ranges);
  }

  /** What the stages leave: one record per frame with its id and metrics
      untouched, invalid exactly when it carries a flag, and valid exactly
      when it lies in one of the shots; the shots are in order, apart,
      inside the video and longer than min_shot_len; and no stage ever made
      a frame valid again. */
  lemma StagesEffect(metrics: seq<Metrics>, stepNorm: seq<real>, area: nat, ecr: seq<real>)
    requires |metrics| >= 1 ==> area > 0 && |stepNorm| == |metrics| - 1
    requires |ecr| == |metrics|
    ensures Stages(metrics, stepNorm, area, ecr).NoFrames? <==> |metrics| == 0
    ensures var res := Stages(metrics, stepNorm, area, ecr);
      res.Parsed? ==>
        && |res.recs| == |metrics|
        && (forall p :: 0 <= p < |metrics| ==> SameIdentity(res.recs[p], InitialInfo(p, metrics[p])))
        && AllConsistent(res.recs)
        && (forall p :: 0 <= p < |metrics| ==> (res.recs[p].valid <==> InRanges(res.ranges, p)))
        && (forall k :: 0 <= k < |res.ranges| ==>
              0 <= res.ranges[k].start <= res.ranges[k].end < |metrics| && res.ranges[k].Length() > MinShotLen)
        && (forall a, b :: 0 <= a < b < |res.ranges| ==> res.ranges[a].end + 1 < res.ranges[b].start)
  {
    if |metrics| > 0 {
      StagesRecords(metrics, DiffSignal(stepNorm, area), ecr);
      StagesRanges(metrics, DiffSignal(stepNorm, area), ecr);
    }
  }

  /** Every stage keeps the frame records' identities and their
      consistency. */
  lemma StagesRecords(metrics: seq<Metrics>, diff: seq<real>, ecr: seq<real>)
    requires |metrics| >= 1 && |diff| >= |metrics| && |ecr| == |metrics|
    ensures var r3 := AfterPostProcess(metrics, diff, ecr);
      var recs := ApplyMarks(r3, ShortMarksOf(r3, MinShotLen));
      && |recs| == |metrics|
      && (forall p :: 0 <= p < |metrics| ==> SameIdentity(recs[p], InitialInfo(p, metrics[p])))
      && AllConsistent(recs)
  {
    var r0 := Initial(metrics);
    var r1 := AfterLowQuality(metrics);
    var r2 := AfterTransition(metrics, diff, ecr);
    var r3 := AfterPostProcess(metrics, diff, ecr);
    InitialConsistent(metrics, r0);
    ApplyMarksMonotone(r0, LowQualityMarks(r0));
    ApplyMarksMonotone(r1, TransitionMarks(r1, diff, ecr));
    ApplyMarksMonotone(r2, PostMarks(r2, diff, MinShotLen));
    ApplyMarksMonotone(r3, ShortMarksOf(r3, MinShotLen));
  }

  /** The final records are valid exactly inside the returned ranges, and
      the ranges are ordered, apart and longer than MinShotLen. */
  lemma StagesRanges(metrics: seq<Metrics>, diff: seq<real>, ecr: seq<real>)
    requires |metrics| >= 1 && |diff| >= |metrics| && |ecr| == |metrics|
    ensures var r3 := AfterPostProcess(metrics, diff, ecr);
      var recs := ApplyMarks(r3, ShortMarksOf(r3, MinShotLen));
      var ranges := ShotRanges(r3, MinShotLen);
      && (forall p :: 0 <= p < |metrics| ==> (recs[p].valid <==> InRanges(ranges, p)))
      && (forall k :: 0 <= k < |ranges| ==>
            0 <= ranges[k].start <= ranges[k].end < |metrics| && ranges[k].Length() > MinShotLen)
      && (forall a, b :: 0 <= a < b < |ranges| ==> ranges[a].end + 1 < ranges[b].start)
  {
    var r3 := AfterPostProcess(metrics, diff, ecr);
    ShotRangesEffect(r3, MinShotLen);
    forall p | 0 <= p < |metrics|
      ensures ApplyMarks(r3, ShortMarksOf(r3, MinShotLen))[p].valid <==> InRanges(ShotRanges(r3, MinShotLen), p)
    {
      ValidExactlyInRanges(r3, MinShotLen, p);
    }
  }
}
